/** Column names of the tables the pipeline builds, and the suffix rule by
    which a left merge names the columns it adds. The rule decides which
    column is called `country_pub`, and so what the geography merge keys on. */
module Schema {
  import Tables

  /** The chart columns the cleaning step reads. */
  const RawChartColumns: seq<string> := [
    "title", "platform", "genre", "publisher", "developer", "release_date",
    "na_sales", "jp_sales", "pal_sales", "other_sales", "total_sales", "critic_score"
  ]

  /** The columns the cleaning step adds, in the order it adds them. */
  const DerivedChartColumns: seq<string> := [
    "release_date_clean", "year", "calculated_total", "has_complete_sales",
    "decade", "platform_generation"
  ]

  const DeveloperColumns: seq<string> := ["developer", "city", "country"]
  const PublisherColumns: seq<string> := ["publisher", "city", "country"]

  /** Columns of the cleaned chart table. */
  function CleanChartColumns(): seq<string> {
    RawChartColumns + DerivedChartColumns
  }

  /** The name a right-hand column gets under `suffixes=('', suffix)`: the
      suffix is appended only when the left table already has the name. */
  function RightName(c: string, left: seq<string>, suffix: string): (n: string)
    ensures c !in left ==> n == c
    ensures c in left ==> n == c + suffix
  {
    if c in left then c + suffix else c
  }

  /** Columns of `left.merge(right, left_on=leftKey, right_on=rightKey,
      suffixes=('', suffix))`: the left columns unchanged, then the right
      columns renamed by `RightName`; a key with the same name on both sides
      appears once, as the left column. */
  function MergeColumns(left: seq<string>, right: seq<string>, leftKey: string, rightKey: string, suffix: string): (cols: seq<string>)
    ensures |cols| >= |left| && cols[..|left|] == left
    ensures leftKey != rightKey ==> |cols| == |left| + |right|
    ensures forall k :: 0 <= k < |right| && (leftKey != rightKey || right[k] != rightKey) ==>
      RightName(right[k], left, suffix) in cols[|left|..]
    ensures forall k :: |left| <= k < |cols| ==>
      exists c :: c in right && (leftKey != rightKey || c != rightKey) && cols[k] == RightName(c, left, suffix)
  {
    var kept := if leftKey == rightKey then Tables.Filter(right, (c: string) => c != rightKey) else right;
    var added := seq(|kept|, k requires 0 <= k < |kept| => RightName(kept[k], left, suffix));
    forall k | 0 <= k < |right| && (leftKey != rightKey || right[k] != rightKey)
      ensures RightName(right[k], left, suffix) in added
    {
      if leftKey == rightKey {
        Tables.FilterMembership(right, (c: string) => c != rightKey, right[k]);
      }
      var m :| 0 <= m < |kept| && kept[m] == right[k];
      assert added[m] == RightName(right[k], left, suffix);
    }
    forall k | 0 <= k < |added|
      ensures kept[k] in right && (leftKey != rightKey || kept[k] != rightKey)
    {
      if leftKey == rightKey {
        Tables.FilterMembership(right, (c: string) => c != rightKey, kept[k]);
      }
    }
    assert (left + added)[|left|..] == added;
    left + added
  }

  /** Columns of the merged table after the developer merge (when that table
      is present) and the publisher merge (when that one is present). */
  function JoinedColumns(hasDevelopers: bool, hasPublishers: bool): seq<string> {
    var c0 := CleanChartColumns();
    var c1 := if hasDevelopers then MergeColumns(c0, DeveloperColumns, "developer", "developer", "_dev") else c0;
    if hasPublishers then MergeColumns(c1, PublisherColumns, "publisher", "publisher", "_pub") else c1
  }

  /** None of the names the merges add is a chart column. */
  lemma AddedNamesNotInCharts()
    ensures "city" !in CleanChartColumns() && "country" !in CleanChartColumns()
    ensures "country_pub" !in CleanChartColumns()
  {
    var c0 := CleanChartColumns();
    forall k | 0 <= k < |c0|
      ensures c0[k] != "city" && c0[k] != "country" && c0[k] != "country_pub"
    {
    }
  }

  /** Dropping the shared key from a registry's columns leaves its place
      columns. */
  lemma RegistryColumnsBesideKey()
    ensures Tables.Filter(DeveloperColumns, (c: string) => c != "developer") == ["city", "country"]
    ensures Tables.Filter(PublisherColumns, (c: string) => c != "publisher") == ["city", "country"]
  {
    assert DeveloperColumns[1..] == ["city", "country"];
    assert PublisherColumns[1..] == ["city", "country"];
    assert ["city", "country"][1..] == ["country"];
  }

  /** The developer merge adds `city` and `country` without suffix, since
      the chart table has neither. */
  lemma DeveloperMergeColumns()
    ensures JoinedColumns(true, false) == CleanChartColumns() + ["city", "country"]
  {
    AddedNamesNotInCharts();
    RegistryColumnsBesideKey();
  }

  /** Without the developer merge the publisher merge adds the same unsuffixed
      `city` and `country`. */
  lemma PublisherOnlyMergeColumns()
    ensures JoinedColumns(false, true) == CleanChartColumns() + ["city", "country"]
  {
    AddedNamesNotInCharts();
    RegistryColumnsBesideKey();
  }

  lemma AppendAssociative<T>(x: seq<T>, a: seq<T>, b: seq<T>)
    ensures (x + a) + b == x + (a + b)
  {
  }

  lemma PubSuffixedNames()
    ensures "city" + "_pub" == "city_pub" && "country" + "_pub" == "country_pub"
  {
  }

  /** On a table without `city` and `country` columns, the developer merge
      adds both unsuffixed and the publisher merge then adds `city_pub` and
      `country_pub`. */
  lemma PlaceColumnsSuffixed(c0: seq<string>)
    requires "city" !in c0 && "country" !in c0
    ensures MergeColumns(c0, DeveloperColumns, "developer", "developer", "_dev") == c0 + ["city", "country"]
    ensures MergeColumns(c0 + ["city", "country"], PublisherColumns, "publisher", "publisher", "_pub")
         == c0 + ["city", "country", "city_pub", "country_pub"]
  {
    RegistryColumnsBesideKey();
    PubSuffixedNames();
    var kept := ["city", "country"];
    var c1 := c0 + kept;
    assert seq(|kept|, k requires 0 <= k < |kept| => RightName(kept[k], c0, "_dev")) == kept;
    assert c1[|c1| - 2] == "city" && c1[|c1| - 1] == "country";
    var added := seq(|kept|, k requires 0 <= k < |kept| => RightName(kept[k], c1, "_pub"));
    assert added == ["city_pub", "country_pub"];
    AppendAssociative(c0, kept, added);
    assert kept + added == ["city", "country", "city_pub", "country_pub"];
  }

  /** After the developer merge the publisher merge finds `city` and
      `country` taken and adds `city_pub` and `country_pub`. So
      `country_pub` is the publisher registry's country column. */
  lemma DeveloperThenPublisherColumns()
    ensures JoinedColumns(true, true) == CleanChartColumns() + ["city", "country", "city_pub", "country_pub"]
  {
    AddedNamesNotInCharts();
    PlaceColumnsSuffixed(CleanChartColumns());
  }

  /** The merged table has a `country_pub` column exactly when both the
      developer and the publisher merge ran. */
  lemma CountryPubColumnPresence(hasDevelopers: bool, hasPublishers: bool)
    ensures "country_pub" in JoinedColumns(hasDevelopers, hasPublishers) <==> hasDevelopers && hasPublishers
  {
    AddedNamesNotInCharts();
    if hasDevelopers && hasPublishers {
      DeveloperThenPublisherColumns();
      var c := CleanChartColumns() + ["city", "country", "city_pub", "country_pub"];
      assert c[|c| - 1] == "country_pub";
    } else if hasDevelopers {
      DeveloperMergeColumns();
    } else if hasPublishers {
      PublisherOnlyMergeColumns();
    }
  }
}
