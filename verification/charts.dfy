/** Cleaning of the sales-chart table (`clean_charts_data`): release-date
    parsing, zero-filling of the sales figures and the critic score, text
    trimming, and the derived columns `calculated_total`,
    `has_complete_sales`, `decade` and `platform_generation`. */
module Charts {
  import opened Wrappers
  import opened Text

  /** A calendar date as `pd.to_datetime` produces it. */
  datatype Date = Date(year: int, month: int, day: int)

  /** `pd.to_datetime(..., errors='coerce')` on one present cell: the parsed
      date, or `None` (NaT) when the text is not a date it accepts. The
      formats pandas accepts are not part of this model, so the parser is a
      parameter of the cleaning step. */
  type DateParser = string -> Option<Date>

  /** A row of the raw chart table; `None` marks a missing cell. */
  datatype RawChartRow = RawChartRow(
    title: Option<string>,
    platform: Option<string>,
    genre: Option<string>,
    publisher: Option<string>,
    developer: Option<string>,
    releaseDate: Option<string>,
    naSales: Option<real>,
    jpSales: Option<real>,
    palSales: Option<real>,
    otherSales: Option<real>,
    totalSales: Option<real>,
    criticScore: Option<real>)

  /** A row of the cleaned chart table: the raw columns after cleaning,
      followed by the derived columns. */
  datatype ChartRow = ChartRow(
    title: string,
    platform: string,
    genre: string,
    publisher: string,
    developer: string,
    releaseDate: Option<string>,
    releaseDateClean: Option<Date>,
    year: Option<int>,
    naSales: real,
    jpSales: real,
    palSales: real,
    otherSales: real,
    totalSales: real,
    criticScore: real,
    calculatedTotal: real,
    hasCompleteSales: bool,
    decade: Option<int>,
    platformGeneration: string)

  /** `v` is the cell `cell` after `fillna(0)`: the value when present, zero
      when missing. */
  predicate ZeroFilled(v: real, cell: Option<real>) {
    (cell.Some? ==> v == cell.value) && (cell.None? ==> v == 0.0)
  }

  /** What the completeness flag is meant to say: all four regional figures
      were present in the raw row. */
  predicate OriginallyComplete(raw: RawChartRow) {
    raw.naSales.Some? && raw.jpSales.Some? && raw.palSales.Some? && raw.otherSales.Some?
  }

  /** The release-date column after `pd.to_datetime(errors='coerce')`: a
      missing cell stays missing, a present one is parsed. */
  function ParseReleaseDate(cell: Option<string>, parse: DateParser): (d: Option<Date>)
    ensures d.Some? <==> cell.Some? && parse(cell.value).Some?
    ensures d.Some? ==> d == parse(cell.value)
  {
    match cell
    case None => None
    case Some(s) => parse(s)
  }

  /** A sales or score cell after `fillna(0)`. The column is still a column
      of cells, now all present. */
  function FillZero(cell: Option<real>): (filled: Option<real>)
    ensures filled.Some? && ZeroFilled(filled.value, cell)
  {
    Some(cell.GetOr(0.0))
  }

  /** A text cell after `astype(str).str.strip()` followed by
      `replace('nan', 'Unknown')`. */
  function CleanText(cell: Option<string>): (r: string)
    ensures IsTrimmed(r) && r != "nan"
    ensures r == "Unknown" <==> cell.None? || Strip(cell.value) == "nan" || Strip(cell.value) == "Unknown"
    ensures r != "Unknown" ==> cell.Some? && r == Strip(cell.value)
  {
    var s := Strip(AsStr(cell));
    assert IsTrimmed(s) by {
      var i: nat, j: nat :| IsStripAt(s, AsStr(cell), i, j);
    }
    assert IsTrimmed("Unknown") by {
      assert "Unknown"[0] == 'U' && "Unknown"[6] == 'n';
    }
    if s == "nan" then "Unknown" else s
  }

  /** `(year // 10) * 10`: the decade containing `year`. Python's `//`
      floors, as Dafny's `/` does for a positive divisor. */
  function Decade(year: int): (d: int)
    ensures d % 10 == 0 && d <= year < d + 10
  {
    (year / 10) * 10
  }

  /** The platform-to-generation table, as its (code, label) entries in
      the source's order. */
  const PlatformTable: seq<(string, string)> := [
    ("PS", "5th Gen"), ("PS2", "6th Gen"), ("PS3", "7th Gen"), ("PS4", "8th Gen"), ("PS5", "9th Gen"),
    ("XBOX", "6th Gen"), ("X360", "7th Gen"), ("XOne", "8th Gen"), ("XS", "9th Gen"),
    ("N64", "5th Gen"), ("GC", "6th Gen"), ("Wii", "7th Gen"), ("WiiU", "8th Gen"), ("NS", "8th Gen"),
    ("GB", "4th Gen"), ("GBA", "6th Gen"), ("DS", "7th Gen"), ("3DS", "8th Gen"),
    ("PC", "PC"), ("MAC", "PC"), ("LIN", "PC")
  ]

  /** The labels the table assigns. */
  const GenerationLabels: set<string> := {"4th Gen", "5th Gen", "6th Gen", "7th Gen", "8th Gen", "9th Gen", "PC"}

  /** Lookup in a dictionary written as the display `table`: a later entry
      for a code overrides an earlier one, as in a Python dict display, so
      the label is that of the last entry for `code`; `None` when no entry
      has that code. */
  function Lookup(table: seq<(string, string)>, code: string): (found: Option<string>)
    ensures found.Some? ==> (code, found.value) in table
    ensures found.None? <==> forall k :: 0 <= k < |table| ==> table[k].0 != code
    decreases |table|
  {
    if |table| == 0 then None
    else if table[|table| - 1].0 == code then Some(table[|table| - 1].1)
    else
      var found := Lookup(table[..|table| - 1], code);
      assert forall k :: 0 <= k < |table| - 1 ==> table[..|table| - 1][k] == table[k];
      found
  }

  /** Entry `k` is the last entry of `table` for `code`. */
  predicate LastEntryFor(table: seq<(string, string)>, k: nat, code: string) {
    k < |table| && table[k].0 == code && forall m :: k < m < |table| ==> table[m].0 != code
  }

  /** The entry that decides a lookup is the last one for the code. */
  lemma {:induction false} LookupLastEntry(table: seq<(string, string)>, k: nat, code: string)
    requires LastEntryFor(table, k, code)
    ensures Lookup(table, code) == Some(table[k].1)
    decreases |table|
  {
    if k < |table| - 1 {
      var init := table[..|table| - 1];
      assert init[k] == table[k];
      assert forall m :: k < m < |init| ==> init[m] == table[m];
      assert LastEntryFor(init, k, code);
      LookupLastEntry(init, k, code);
    }
  }

  /** A cheap fingerprint of a code: its length and its first and last
      characters. Equal codes have equal fingerprints. */
  function Signature(s: string): (sig: (int, char, char)) {
    if |s| == 0 then (0, ' ', ' ') else (|s|, s[0], s[|s| - 1])
  }

  /** The fingerprints of the table's codes, in the table's order. */
  const PlatformSignatures: seq<(int, char, char)> := [
    (2, 'P', 'S'), (3, 'P', '2'), (3, 'P', '3'), (3, 'P', '4'), (3, 'P', '5'), (4, 'X', 'X'), (4, 'X', '0'),
    (4, 'X', 'e'), (2, 'X', 'S'), (3, 'N', '4'), (2, 'G', 'C'), (3, 'W', 'i'), (4, 'W', 'U'), (2, 'N', 'S'),
    (2, 'G', 'B'), (3, 'G', 'A'), (2, 'D', 'S'), (3, '3', 'S'), (2, 'P', 'C'), (3, 'M', 'C'), (3, 'L', 'N')
  ]

  lemma SignaturesMatch()
    ensures forall m :: 0 <= m < |PlatformTable| ==> Signature(PlatformTable[m].0) == PlatformSignatures[m]
  {
  }

  lemma SignaturesDistinct()
    ensures forall k, m :: 0 <= k < m < |PlatformSignatures| ==> PlatformSignatures[k] != PlatformSignatures[m]
  {
  }

  /** No code has two entries in the table: their fingerprints already
      differ. */
  lemma PlatformCodesDistinct()
    ensures forall k, m :: 0 <= k < m < |PlatformTable| ==> PlatformTable[k].0 != PlatformTable[m].0
  {
    SignaturesMatch();
    SignaturesDistinct();
  }

  /** Every label in the table is one of the known generation labels. */
  lemma TableLabelsKnown()
    ensures forall k :: 0 <= k < |PlatformTable| ==> PlatformTable[k].1 in GenerationLabels
  {
  }

  /** `platform.map(platform_generations).fillna('Other')`. */
  function PlatformGeneration(platform: string): (g: string)
    ensures g in GenerationLabels || g == "Other"
  {
    match Lookup(PlatformTable, platform)
    case Some(gen) =>
      TableLabelsKnown();
      gen
    case None => "Other"
  }

  /** One chart row through `clean_charts_data`. The completeness flag is
      computed, as in the source, from the sales cells AFTER they were
      zero-filled. */
  function CleanChartRow(raw: RawChartRow, parse: DateParser): (c: ChartRow)
    ensures ZeroFilled(c.naSales, raw.naSales) && ZeroFilled(c.jpSales, raw.jpSales)
    ensures ZeroFilled(c.palSales, raw.palSales) && ZeroFilled(c.otherSales, raw.otherSales)
    ensures ZeroFilled(c.totalSales, raw.totalSales) && ZeroFilled(c.criticScore, raw.criticScore)
    ensures c.releaseDate == raw.releaseDate
    ensures c.releaseDateClean == ParseReleaseDate(raw.releaseDate, parse)
    ensures c.title == CleanText(raw.title) && c.platform == CleanText(raw.platform)
    ensures c.genre == CleanText(raw.genre) && c.publisher == CleanText(raw.publisher)
    ensures c.developer == CleanText(raw.developer)
    ensures c.platformGeneration == PlatformGeneration(c.platform)
  {
    var date := ParseReleaseDate(raw.releaseDate, parse);
    var year := if date.Some? then Some(date.value.year) else None;
    var na := FillZero(raw.naSales);
    var jp := FillZero(raw.jpSales);
    var pal := FillZero(raw.palSales);
    var other := FillZero(raw.otherSales);
    var total := FillZero(raw.totalSales);
    var critic := FillZero(raw.criticScore);
    var platform := CleanText(raw.platform);
    ChartRow(
      title := CleanText(raw.title),
      platform := platform,
      genre := CleanText(raw.genre),
      publisher := CleanText(raw.publisher),
      developer := CleanText(raw.developer),
      releaseDate := raw.releaseDate,
      releaseDateClean := date,
      year := year,
      naSales := na.value,
      jpSales := jp.value,
      palSales := pal.value,
      otherSales := other.value,
      totalSales := total.value,
      criticScore := critic.value,
      calculatedTotal := na.value + jp.value + pal.value + other.value,
      hasCompleteSales := na.Some? && jp.Some? && pal.Some? && other.Some?,
      decade := if year.Some? then Some(Decade(year.value)) else None,
      platformGeneration := PlatformGeneration(platform))
  }

  /** `clean_charts_data`: the table cleaned row by row, in order. The input
      is a value and is left as it was. */
  function CleanCharts(raw: seq<RawChartRow>, parse: DateParser): (rows: seq<ChartRow>)
    ensures |rows| == |raw|
    ensures forall i :: 0 <= i < |raw| ==> rows[i] == CleanChartRow(raw[i], parse)
  {
    seq(|raw|, i requires 0 <= i < |raw| => CleanChartRow(raw[i], parse))
  }

  /** `calculated_total` is the sum of the four filled regional figures,
      whatever the provided `total_sales` says: two rows differing only in
      `total_sales` get the same `calculated_total`. */
  lemma CalculatedTotalIgnoresTotalSales(raw: RawChartRow, parse: DateParser, total: Option<real>)
    ensures var c := CleanChartRow(raw, parse);
      c.calculatedTotal == c.naSales + c.jpSales + c.palSales + c.otherSales
    ensures CleanChartRow(raw.(totalSales := total), parse).calculatedTotal == CleanChartRow(raw, parse).calculatedTotal
  {
  }

  /** With non-negative raw figures, every filled figure and the calculated
      total are non-negative. */
  lemma SalesNonNegative(raw: RawChartRow, parse: DateParser)
    requires raw.naSales.Some? ==> raw.naSales.value >= 0.0
    requires raw.jpSales.Some? ==> raw.jpSales.value >= 0.0
    requires raw.palSales.Some? ==> raw.palSales.value >= 0.0
    requires raw.otherSales.Some? ==> raw.otherSales.value >= 0.0
    ensures var c := CleanChartRow(raw, parse);
      c.naSales >= 0.0 && c.jpSales >= 0.0 && c.palSales >= 0.0 && c.otherSales >= 0.0
      && c.calculatedTotal >= 0.0
  {
  }

  /** The completeness flag, computed after the fill, holds for every row. */
  lemma CompleteSalesFlagAlwaysTrue(raw: RawChartRow, parse: DateParser)
    ensures CleanChartRow(raw, parse).hasCompleteSales
  {
  }

  /** Hence every row of the cleaned table carries the flag. */
  lemma CleanChartsAllFlagged(raw: seq<RawChartRow>, parse: DateParser)
    ensures forall i :: 0 <= i < |raw| ==> CleanCharts(raw, parse)[i].hasCompleteSales
  {
    forall i | 0 <= i < |raw|
      ensures CleanCharts(raw, parse)[i].hasCompleteSales
    {
      CompleteSalesFlagAlwaysTrue(raw[i], parse);
    }
  }

  /** So the flag does not say what it is meant to: a row with missing
      regional figures gets it too. */
  lemma CompleteSalesFlagIgnoresMissingFigures(raw: RawChartRow, parse: DateParser)
    requires !OriginallyComplete(raw)
    ensures CleanChartRow(raw, parse).hasCompleteSales != OriginallyComplete(raw)
  {
  }

  /** `year` is missing exactly when the release date is missing or does
      not parse, and is otherwise the parsed date's year; `decade` is
      missing exactly when `year` is, and otherwise is the decade holding
      `year`. */
  lemma YearAndDecade(raw: RawChartRow, parse: DateParser)
    ensures var c := CleanChartRow(raw, parse);
      && (c.year.None? <==> raw.releaseDate.None? || parse(raw.releaseDate.value).None?)
      && (c.year.Some? ==> c.year.value == parse(raw.releaseDate.value).value.year)
      && (c.decade.None? <==> c.year.None?)
      && (c.year.Some? ==> c.decade.value % 10 == 0 && c.decade.value <= c.year.value < c.decade.value + 10)
  {
  }

  /** Every cleaned text field is trimmed and never the string "nan". */
  lemma TextFieldsClean(raw: RawChartRow, parse: DateParser)
    ensures var c := CleanChartRow(raw, parse);
      && IsTrimmed(c.title) && IsTrimmed(c.platform) && IsTrimmed(c.genre)
      && IsTrimmed(c.publisher) && IsTrimmed(c.developer)
      && c.title != "nan" && c.platform != "nan" && c.genre != "nan"
      && c.publisher != "nan" && c.developer != "nan"
  {
  }

  /** `platform_generation` is never missing: a code with an entry gets
      the label of its last entry, any other code (including "Unknown")
      gets "Other", and the result is a known label or "Other". */
  lemma PlatformGenerationLookup(platform: string)
    ensures PlatformGeneration(platform) in GenerationLabels || PlatformGeneration(platform) == "Other"
    ensures forall k: nat :: LastEntryFor(PlatformTable, k, platform) ==> PlatformGeneration(platform) == PlatformTable[k].1
    ensures PlatformGeneration(platform) == "Other" <==> forall k :: 0 <= k < |PlatformTable| ==> PlatformTable[k].0 != platform
  {
    TableLabelsKnown();
    assert "Other" !in GenerationLabels;
    forall k: nat | LastEntryFor(PlatformTable, k, platform)
      ensures PlatformGeneration(platform) == PlatformTable[k].1
    {
      LookupLastEntry(PlatformTable, k, platform);
    }
    if PlatformGeneration(platform) == "Other" {
      assert Lookup(PlatformTable, platform).None?;
    }
  }

  /** Each code of the table gets the label listed beside it. */
  lemma PlatformLabelsListed()
    ensures forall k :: 0 <= k < |PlatformTable| ==> PlatformGeneration(PlatformTable[k].0) == PlatformTable[k].1
  {
    PlatformCodesDistinct();
    forall k | 0 <= k < |PlatformTable|
      ensures PlatformGeneration(PlatformTable[k].0) == PlatformTable[k].1
    {
      assert LastEntryFor(PlatformTable, k, PlatformTable[k].0);
      LookupLastEntry(PlatformTable, k, PlatformTable[k].0);
    }
  }
}
