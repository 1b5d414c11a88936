# Video-game sales preprocessing, modelled in Dafny

This project models the preprocessing step of a video-game sales analysis,
`project/data_preprocessing.py`. The step takes five raw tables: the sales
chart, the developer registry, the publisher registry, the city table and
the country table. It runs four pure stages:

- `clean_charts_data` parses the release date. It zero-fills the sales
  figures and the critic score, strips the text columns and renames "nan"
  to "Unknown". It then derives `calculated_total`, `has_complete_sales`,
  `decade` and `platform_generation`.
- `clean_other_datasets` strips the registry names, fills the missing
  cities and countries with "Unknown", and passes the geography tables on.
- `merge_datasets` makes three left merges: on the developer name, on the
  publisher name, and on the publisher's country (`country_pub` against
  the normalised `Country`).
- `create_analysis_datasets` cuts four row selections: complete sales,
  games from 2010 on, major publishers, and top platforms.

A table is a sequence of row records, and a missing (NaN) cell is `None`.
Sales figures and scores are `real`. The modules follow the stages:

- `Text`: Python's `str.strip()`, `str.replace(c, '')` and `astype(str)`.
- `Tables`: filters, subsequences, and the left outer join with pandas'
  row-count law.
- `Schema`: column names and the merge suffix rule.
- `Charts`: `clean_charts_data`.
- `Registries`: `clean_other_datasets`.
- `Merge`: `merge_datasets`.
- `Segments`: `create_analysis_datasets`.
- `Pipeline`: the stages in the order `main` runs them.

Some behaviours of the code are modelled as written:

- **The completeness flag is always true.** `has_complete_sales` is
  computed after the sales columns were zero-filled, so it holds on every
  row. `Charts.CompleteSalesFlagAlwaysTrue` proves this. As a result, the
  complete-sales view is the whole merged table
  (`Pipeline.CompleteSalesIsMerged`).
- **Registry names are not renamed.** A missing name becomes the text
  "nan", not "Unknown", so it can never match a cleaned chart row.
- **`country_pub` needs both registries.** The column exists only when the
  developer merge ran before the publisher merge; the suffix rule then
  renames the publisher's `country`, and the value in that column is the
  key the geography merge reads. Without it, the geography merge fails
  with a `KeyError`, which is modelled as `MissingColumn("country_pub")`.
- **Missing keys match missing keys.** pandas pairs a NaN key with a NaN
  key, so a row whose publisher was not found is paired with a country
  row that has no name, when the country table has one.
- **Country names are stripped before the quotes are removed.** A quoted
  name such as `" France"` therefore keeps its inner space.
- **The platform table keeps the last entry.** Like a Python dict
  display, the lookup uses the last entry for a code. The table in the
  source has no repeated code (`Charts.PlatformCodesDistinct`), so every
  code gets the label listed beside it.
- **Decades use floor division.** Dafny's `/` on `int` with divisor 10
  floors, just as Python's `//` does, also for negative years.

## Model

| member | source | states |
|---|---|---|
| Text.Strip | project/data_preprocessing.py:59 | the result is the input with its surrounding whitespace, and only that, cut off; the remainder is trimmed |
| Text.StripCharacterised | project/data_preprocessing.py:59 | a string is the strip of `s` exactly when it equals `Strip(s)`, so the strip is unique |
| Text.StripIdempotent | project/data_preprocessing.py:59 | stripping twice is stripping once |
| Text.RemoveChar | project/data_preprocessing.py:154 | the result has no occurrence of the removed character, and the same number of every other character |
| Text.RemoveCharAppend | project/data_preprocessing.py:154 | removing a character distributes over concatenation |
| Text.AsStr | project/data_preprocessing.py:59 | a present cell renders as its text and a missing one as the text "nan" |
| Tables.LeftJoin | project/data_preprocessing.py:132-137 | a left merge emits at least one pair per left row |
| Tables.LeftJoinLength | project/data_preprocessing.py:132-137 | a left merge has one row per match of each left row, and one for each left row without a match |
| Tables.LeftJoinKeepsLeftRows | project/data_preprocessing.py:132-137 | a left merge keeps every left row, in order |
| Tables.LeftJoinMembership | project/data_preprocessing.py:132-137 | an output pair is a left row with a right row of equal key, or with nothing when no right row has that key |
| Tables.LeftJoinAtMostOneMatch | project/data_preprocessing.py:132-137 | when no key matches twice, the merge keeps the row count and row `i` is left row `i` with its sole match |
| Tables.JoinRowInRegistryOrder | project/data_preprocessing.py:132-137 | a left row with matches is paired with each of them in turn, in the order they have in the registry |
| Tables.Filter | project/data_preprocessing.py:174 | a mask selection is no longer than the table and keeps only rows satisfying the predicate |
| Tables.FilterCount | project/data_preprocessing.py:174 | a boolean mask keeps each selected row as often as the table has it, and drops every other row |
| Schema.MergeColumns | project/data_preprocessing.py:132-137 | the merged columns are the left columns followed by the right ones; a right name already on the left gets the suffix; a shared key appears once |
| Schema.DeveloperThenPublisherColumns | project/data_preprocessing.py:132-147 | after both registry merges, the publisher's place columns are `city_pub` and `country_pub` |
| Schema.CountryPubColumnPresence | project/data_preprocessing.py:131-157 | `country_pub` is a column exactly when both the developer and the publisher merge ran |
| Charts.ParseReleaseDate | project/data_preprocessing.py:41 | the parsed date is present exactly when the cell is present and parses, and is then the parser's date |
| Charts.FillZero | project/data_preprocessing.py:48-52 | the filled value is the cell's value when present and zero when missing |
| Charts.CleanText | project/data_preprocessing.py:56-60 | a cleaned text cell is trimmed and never "nan"; it is "Unknown" exactly when the cell was missing or strips to "nan" or "Unknown", and otherwise it is the stripped cell |
| Charts.CleanChartRow | project/data_preprocessing.py:41-90 | each sales figure and the critic score is the raw value when present and zero when missing; each text column is its own raw cell through the text cleaning; the parsed date is the parser's result on the raw date cell, whose text is kept; the generation is looked up from the cleaned platform |
| Charts.CleanCharts | project/data_preprocessing.py:32-93 | the cleaned table has one row per raw row, in order, each cleaned on its own |
| Charts.CalculatedTotalIgnoresTotalSales | project/data_preprocessing.py:66-69 | `calculated_total` is the sum of the four filled regional figures and does not depend on `total_sales` |
| Charts.SalesNonNegative | project/data_preprocessing.py:47-69 | non-negative raw figures give non-negative filled figures and a non-negative calculated total |
| Charts.CompleteSalesFlagAlwaysTrue | project/data_preprocessing.py:47-77 | the completeness flag holds on every cleaned row |
| Charts.CompleteSalesFlagIgnoresMissingFigures | project/data_preprocessing.py:72-77 | a row whose raw regional figures were not all present still gets the flag |
| Charts.CleanChartsAllFlagged | project/data_preprocessing.py:72-77 | every row of the cleaned table carries the flag |
| Charts.Decade | project/data_preprocessing.py:80 | the decade is the multiple of ten at most the year and less than ten below it |
| Charts.YearAndDecade | project/data_preprocessing.py:41-80 | `year` is missing exactly when the date is missing or does not parse, and is otherwise the parsed year; `decade` is missing exactly when `year` is, and is otherwise the multiple of ten holding `year` |
| Charts.TextFieldsClean | project/data_preprocessing.py:56-60 | all five text columns are trimmed and none is "nan" |
| Charts.Lookup | project/data_preprocessing.py:83-90 | a found label belongs to an entry with that code; nothing is found exactly when no entry has the code |
| Charts.LookupLastEntry | project/data_preprocessing.py:83-90 | the lookup returns the label of the last entry for the code |
| Charts.PlatformGeneration | project/data_preprocessing.py:90 | the generation is always one of the table's labels or "Other", never missing |
| Charts.PlatformGenerationLookup | project/data_preprocessing.py:83-90 | a code with an entry gets that entry's label; the result is "Other" exactly when no entry has the code; it is always a known label or "Other" |
| Charts.PlatformCodesDistinct | project/data_preprocessing.py:83-89 | no platform code has two entries in the table |
| Charts.PlatformLabelsListed | project/data_preprocessing.py:83-90 | each of the 21 codes of the table gets the label listed beside it |
| Registries.CleanRegistryRow | project/data_preprocessing.py:104-116 | the name is the strip of its `astype(str)` text; a present city or country is kept and a missing one becomes "Unknown" |
| Registries.CleanRegistry | project/data_preprocessing.py:104-116 | the cleaned registry has one row per raw row, in order, each cleaned on its own |
| Registries.RegistryRowClean | project/data_preprocessing.py:105-116 | a cleaned registry name is trimmed and, when present, is the stripped raw name |
| Registries.AbsentNameBecomesNan | project/data_preprocessing.py:105-114 | a missing registry name becomes "nan", which differs from what a missing chart cell becomes |
| Registries.NamelessRowNeverMatches | project/data_preprocessing.py:105-147 | a registry row without a name matches no cleaned chart row's developer or publisher |
| Registries.CleanOtherDatasets | project/data_preprocessing.py:95-123 | the run fails exactly when a geography table is missing, the city table being checked first; otherwise the geography tables pass through unchanged and each registry that is present is cleaned row by row |
| Merge.Start | project/data_preprocessing.py:130 | the merge starts from the chart rows, with nothing attached |
| Merge.Stage | project/data_preprocessing.py:132-137 | output row `k` is the `k`-th pair of the left join with its match attached, so there are at least as many rows as in the input |
| Merge.StageRowCount | project/data_preprocessing.py:132-137 | a merge stage has the row count of the left join |
| Merge.StageMembership | project/data_preprocessing.py:132-137 | an output row is exactly an input row with a matching right row, or with nothing when no right row matches |
| Merge.StageKeepsCharts | project/data_preprocessing.py:132-137 | a stage keeps every chart row, in order |
| Merge.StageChartsFromInput | project/data_preprocessing.py:132-137 | a stage creates no chart row that was not in its input |
| Merge.StageAtMostOneMatch | project/data_preprocessing.py:132-137 | with at most one match per key, a stage keeps the row count and the order, attaching the sole match |
| Merge.MergeDevelopers | project/data_preprocessing.py:132-137 | every output row carries the developer-registry row whose name is its developer, or nothing when no registry row has that name; there are at least as many output rows as input rows |
| Merge.MergeDevelopersMembership | project/data_preprocessing.py:132-137 | the rows of the developer merge are exactly the input rows, each paired on the developer name with a registry row of that name, or with nothing when there is none |
| Merge.DeveloperMergeRow | project/data_preprocessing.py:132-137 | a developer-merge row carries the registry row of its developer name, or nothing, and is otherwise equal to an input row |
| Merge.MergePublishers | project/data_preprocessing.py:142-147 | every output row carries the publisher-registry row whose name is its publisher, or nothing when no registry row has that name; there are at least as many output rows as input rows |
| Merge.MergePublishersMembership | project/data_preprocessing.py:142-147 | the rows of the publisher merge are exactly the input rows, each paired on the publisher name with a registry row of that name, or with nothing when there is none |
| Merge.PublisherMergeRow | project/data_preprocessing.py:142-147 | a publisher-merge row carries the registry row of its publisher name, or nothing, and is otherwise equal to an input row |
| Merge.NormaliseCountry | project/data_preprocessing.py:154 | a normalised country name is present exactly when the raw one is; it has no double quote and otherwise the characters of the stripped name |
| Merge.NormaliseGeo | project/data_preprocessing.py:152-154 | one row per country row, with its `Country` normalised and its other cells unchanged |
| Merge.MergeGeo | project/data_preprocessing.py:155-161 | every output row carries the normalised country row whose `Country` equals its `country_pub`, or nothing when there is none; there are at least as many output rows as input rows |
| Merge.MergeGeoMembership | project/data_preprocessing.py:155-161 | the rows of the geography merge are exactly the input rows, each paired on `country_pub` with a normalised country row of that name, or with nothing when there is none |
| Merge.CountryPubCell | project/data_preprocessing.py:142-157 | naming the cells each registry merge adds by the suffix rule, the cell called `country_pub` exists exactly when both registry merges ran, and then holds `CountryPub`: the matched publisher's country, or NaN when the publisher was not found |
| Merge.GeoMergeKeysOnCountryPubColumn | project/data_preprocessing.py:125-161 | every row of a successful merge with a country table was joined on the value of its column named `country_pub`, the publisher registry's country |
| Merge.MergeDatasets | project/data_preprocessing.py:125-165 | the merge fails exactly when the country table is present but one of the registries is not, and then the error is the missing `country_pub` column |
| Merge.PlaceMergedRow | project/data_preprocessing.py:130-147 | a row after the registry merges carries an input chart row, what each registry merge that ran attached on its own key, nothing for a merge that did not run, and no geography part |
| Merge.MergedRowParts | project/data_preprocessing.py:125-165 | every row of a successful merge carries an input chart row and, for each stage, the attachment made on that stage's key (developer name, publisher name, `country_pub`), or nothing when the stage's table is absent; later stages keep what earlier ones attached |
| Merge.MergeKeepsCharts | project/data_preprocessing.py:125-165 | the cleaned chart table is a subsequence of the merged table's chart rows, so the merged table is at least as long |
| Merge.MergeChartsFromInput | project/data_preprocessing.py:125-165 | every merged row carries one of the cleaned chart rows |
| Merge.MergeUniqueKeys | project/data_preprocessing.py:125-165 | with distinct registry names and distinct normalised country names, the merged table has exactly the chart rows, in order |
| Merge.GeoMergeRow | project/data_preprocessing.py:152-161 | each geography-merged row carries a country row with the same key as its `country_pub`, or nothing when no country row has that key, and is otherwise equal to an input row |
| Merge.QuotedCountryPubNeverMatches | project/data_preprocessing.py:154-158 | a `country_pub` containing a double quote never matches, because only the right-hand key is normalised |
| Merge.MissingCountryPubMatchesMissingCountry | project/data_preprocessing.py:155-161 | a missing `country_pub` is paired with a country row exactly when the country table has a row without a name |
| Merge.QuotedCountryKeepsInside | project/data_preprocessing.py:154 | a name wrapped in double quotes becomes exactly what lies inside them, surrounding spaces included |
| Merge.QuotedFranceKeepsSpace | project/data_preprocessing.py:154 | `" France"` in quotes normalises to ` France`, not `France` |
| Segments.CreateAnalysisDatasets | project/data_preprocessing.py:167-196 | each of the four views is an order-preserving selection of the merged table by its own predicate |
| Segments.SelectionMembership | project/data_preprocessing.py:174-192 | a row is in a view exactly when it is in the table and satisfies the view's predicate |
| Segments.FilterIsSelection | project/data_preprocessing.py:174-192 | the row filter computes the reference selection |
| Segments.RecentGamesHaveYears | project/data_preprocessing.py:179 | every recent game has a year, and that year is at least 2010 |
| Segments.CompleteSalesIsAll | project/data_preprocessing.py:174 | when every row is flagged, the complete-sales view is the whole table |
| Segments.ViewsIndependent | project/data_preprocessing.py:174-192 | a merged row is in each view whose predicate it satisfies and in no other |
| Pipeline.Preprocess | project/data_preprocessing.py:248-257 | the run fails exactly when a geography table or a registry is missing, naming the first missing piece; otherwise the cleaned charts are the chart cleaning of the raw charts, the side tables are the side-table cleaning, the merged table is the merge of those two, and each view is the selection of the merged table by its predicate |
| Pipeline.PreprocessKeepsCharts | project/data_preprocessing.py:248-257 | the merged table contains every cleaned chart row, in order, and no other chart row |
| Pipeline.CompleteSalesIsMerged | project/data_preprocessing.py:72-174 | the complete-sales view of a run equals its merged table |
| Pipeline.ExamplePlatform | project/data_preprocessing.py:56-90 | a "PS" row keeps its platform code and gets "5th Gen" |
| Pipeline.ExampleDates | project/data_preprocessing.py:41-80 | a row released 1998-05-12 gets year 1998 and decade 1990 |
| Pipeline.ExampleSales | project/data_preprocessing.py:48-77 | a row with North American and Japanese figures 1.5 and 2.0, the other two regional figures and the score missing, and total 10.85 gets calculated total 3.5, keeps its reported total, gets score 0, and is flagged |

## Left out

- Loading the CSV files and saving the pickles (`load_datasets`, `save_processed_data`, `main`'s printing) are file I/O. The summary statistics built while saving are left out for the same reason.
- The date formats `pd.to_datetime` accepts are not modelled. The parser is a parameter of the chart cleaning, and pandas' format inference across a whole column is not modelled.
- Sales and scores are exact reals, not IEEE doubles; rounding in `calculated_total` is not modelled.
- The `if col in df_clean.columns` test for text columns assumes the fixed chart columns, so it always holds here.
- Registry columns other than the name, city and country are not modelled. The descriptive cells of the geography tables are opaque values. The `_geo` suffix and the names of the country-table columns are therefore not modelled.
- The pandas error raised when a suffixed column name already exists cannot arise with the fixed columns, and is not modelled.
- A registry name cell that is not a string is not modelled. `astype(str)` is modelled only for text and missing cells.
- The other scripts of the repository, the exploration scripts and `main.py`, are not part of this model.
- Charts.CleanChartRow: its own contract leaves `year`, `decade`, `calculated_total` and the completeness flag to the lemmas `YearAndDecade`, `CalculatedTotalIgnoresTotalSales` and `CompleteSalesFlagAlwaysTrue`, which state them for every row.
- Tables.LeftJoin: its own contract states only a lower bound on the length; the exact row count and the rows are stated by `LeftJoinLength`, `LeftJoinMembership` and `LeftJoinKeepsLeftRows`.
- Tables.Filter: its own contract states only the bound and the predicate; the exact selection is stated by `FilterCount` and `FilterIsSubsequence`.
