/**
 * Statistics aggregation (CAppCore::updateStats): for every configured
 * region and every statistics column {name, role}, count the records whose
 * role value contains name and whose "region" value contains the region
 * label; each region row stores every count under its column name and the
 * sum of the counts under "total". The configuration and the record list
 * come in as parameters; the resulting rows are what is handed to the
 * statistics table model.
 */
module StatsAggregation {
  import opened Rows
  import opened Text

  const RegionRole: string := "region"
  const TotalKey: string := "total"

  /** A configured statistics column: the text to look for, and the role whose value is searched. */
  datatype StatsColumn = StatsColumn(name: string, role: string)

  /** A record falls in a column's category for a region. */
  predicate Matches(info: TableRow, column: StatsColumn, region: string)
  {
    Contains(Value(info, column.role), column.name) && Contains(Value(info, RegionRole), region)
  }

  /** The number of records in a column's category for a region. */
  function CountMatches(infos: seq<TableRow>, column: StatsColumn, region: string): (n: nat)
    ensures n <= |infos|
  {
    if infos == [] then 0
    else CountMatches(infos[..|infos| - 1], column, region) + (if Matches(infos[|infos| - 1], column, region) then 1 else 0)
  }

  /** The sum of a region's counts over the columns. */
  function Total(infos: seq<TableRow>, columns: seq<StatsColumn>, region: string): nat
  {
    if columns == [] then 0
    else Total(infos, columns[..|columns| - 1], region) + CountMatches(infos, columns[|columns| - 1], region)
  }

  /** The counters of a region row, column by column; a later column overwrites an earlier one of the same name. */
  function RegionCounts(infos: seq<TableRow>, columns: seq<StatsColumn>, region: string): map<string, int>
  {
    if columns == [] then map[]
    else
      var last := columns[|columns| - 1];
      RegionCounts(infos, columns[..|columns| - 1], region)[last.name := CountMatches(infos, last, region)]
  }

  /** The statistics row of one region. */
  function RegionRow(infos: seq<TableRow>, columns: seq<StatsColumn>, region: string): StatsRow
  {
    StatsRow(region, RegionCounts(infos, columns, region)[TotalKey := Total(infos, columns, region)])
  }

  /** Recomputes the statistics rows (lines 331-359): one row per region, in region order. */
  method UpdateStats(infos: seq<TableRow>, regions: seq<string>, columns: seq<StatsColumn>)
    returns (stats: seq<StatsRow>)
    ensures |stats| == |regions|
    ensures forall i :: 0 <= i < |regions| ==> stats[i].id == regions[i]
    ensures forall i :: 0 <= i < |regions| ==> stats[i] == RegionRow(infos, columns, regions[i])
  {
    stats := [];
    var r := 0;
    while r < |regions|
      invariant 0 <= r <= |regions|
      invariant |stats| == r
      invariant forall i :: 0 <= i < r ==> stats[i] == RegionRow(infos, columns, regions[i])
    {
      var region := regions[r];
      var data: map<string, int> := map[];
      var sum := 0;
      var c := 0;
      while c < |columns|
        invariant 0 <= c <= |columns|
        invariant data == RegionCounts(infos, columns[..c], region)
        invariant sum == Total(infos, columns[..c], region)
      {
        var column := columns[c];
        var count := 0;
        var k := 0;
        while k < |infos|
          invariant 0 <= k <= |infos|
          invariant count == CountMatches(infos[..k], column, region)
        {
          assert infos[..k + 1][..k] == infos[..k];
          if Contains(Value(infos[k], column.role), column.name) && Contains(Value(infos[k], RegionRole), region) {
            count := count + 1;
          }
          k := k + 1;
        }
        assert infos[..k] == infos;
        assert columns[..c + 1][..c] == columns[..c];
        sum := sum + count;
        data := data[column.name := count];
        c := c + 1;
      }
      assert columns[..c] == columns;
      stats := stats + [StatsRow(region, data[TotalKey := sum])];
      r := r + 1;
    }
  }

  /** Indices of the records in a column's category for a region, among the first n. */
  ghost function MatchIndices(infos: seq<TableRow>, column: StatsColumn, region: string, n: nat): set<nat>
    requires n <= |infos|
  {
    set i: nat | i < n && Matches(infos[i], column, region)
  }

  lemma MatchIndicesStep(infos: seq<TableRow>, column: StatsColumn, region: string, n: nat)
    requires n < |infos|
    ensures MatchIndices(infos, column, region, n + 1)
         == MatchIndices(infos, column, region, n) + (if Matches(infos[n], column, region) then {n} else {})
  {
  }

  lemma MatchIndicesPrefix(infos: seq<TableRow>, column: StatsColumn, region: string, n: nat)
    requires n <= |infos|
    ensures MatchIndices(infos[..n], column, region, n) == MatchIndices(infos, column, region, n)
  {
  }

  /** The count is the number of matching records, by an independent definition. */
  lemma {:induction false} CountIsCardinality(infos: seq<TableRow>, column: StatsColumn, region: string)
    ensures CountMatches(infos, column, region) == |MatchIndices(infos, column, region, |infos|)|
  {
    if infos != [] {
      var n := |infos| - 1;
      CountIsCardinality(infos[..n], column, region);
      MatchIndicesPrefix(infos, column, region, n);
      MatchIndicesStep(infos, column, region, n);
      assert n !in MatchIndices(infos, column, region, n);
    }
  }

  lemma {:induction false} CountAppend(a: seq<TableRow>, b: seq<TableRow>, column: StatsColumn, region: string)
    ensures CountMatches(a + b, column, region) == CountMatches(a, column, region) + CountMatches(b, column, region)
    decreases |b|
  {
    if b == [] {
      assert a + b == a;
    } else {
      var n := |b| - 1;
      CountAppend(a, b[..n], column, region);
      assert (a + b)[..|a + b| - 1] == a + b[..n];
    }
  }

  /** Reordering the records does not change a count. */
  lemma {:induction false} CountOrderIndependent(a: seq<TableRow>, b: seq<TableRow>, column: StatsColumn, region: string)
    requires multiset(a) == multiset(b)
    ensures CountMatches(a, column, region) == CountMatches(b, column, region)
    decreases |a|
  {
    if a == [] {
      assert |b| == |multiset(b)| == 0;
    } else {
      var n := |a| - 1;
      var x := a[n];
      assert a == a[..n] + [x];
      assert x in multiset(b);
      var j :| 0 <= j < |b| && b[j] == x;
      var rest := b[..j] + b[j + 1..];
      assert b == b[..j] + [x] + b[j + 1..];
      assert multiset(a) == multiset(a[..n]) + multiset{x};
      assert multiset(b) == multiset(b[..j]) + multiset{x} + multiset(b[j + 1..]);
      assert multiset(rest) == multiset(b[..j]) + multiset(b[j + 1..]);
      assert multiset(a[..n]) == multiset(a) - multiset{x};
      assert multiset(rest) == multiset(b) - multiset{x};
      CountOrderIndependent(a[..n], rest, column, region);
      CountAppend(b[..j], b[j + 1..], column, region);
      CountAppend(b[..j] + [x], b[j + 1..], column, region);
      CountAppend(b[..j], [x], column, region);
      CountAppend(a[..n], [x], column, region);
    }
  }

  /** Reordering the records does not change any region row. */
  lemma {:induction false} RegionRowOrderIndependent(a: seq<TableRow>, b: seq<TableRow>, columns: seq<StatsColumn>, region: string)
    requires multiset(a) == multiset(b)
    ensures RegionRow(a, columns, region) == RegionRow(b, columns, region)
  {
    forall c | 0 <= c < |columns| ensures CountMatches(a, columns[c], region) == CountMatches(b, columns[c], region) {
      CountOrderIndependent(a, b, columns[c], region);
    }
    RegionsAgree(a, b, columns, region);
  }

  lemma {:induction false} RegionsAgree(a: seq<TableRow>, b: seq<TableRow>, columns: seq<StatsColumn>, region: string)
    requires forall c :: 0 <= c < |columns| ==> CountMatches(a, columns[c], region) == CountMatches(b, columns[c], region)
    ensures RegionCounts(a, columns, region) == RegionCounts(b, columns, region)
    ensures Total(a, columns, region) == Total(b, columns, region)
  {
    if columns != [] {
      var n := |columns| - 1;
      RegionsAgree(a, b, columns[..n], region);
    }
  }

  /** No two columns share a name. */
  predicate DistinctNames(columns: seq<StatsColumn>)
  {
    forall i, j :: 0 <= i < j < |columns| ==> columns[i].name != columns[j].name
  }

  /** A region row holds a counter for exactly the column names, and "total". */
  lemma {:induction false} RegionCountsKeys(infos: seq<TableRow>, columns: seq<StatsColumn>, region: string)
    ensures RegionCounts(infos, columns, region).Keys == set c | c in columns :: c.name
  {
    if columns != [] {
      var n := |columns| - 1;
      RegionCountsKeys(infos, columns[..n], region);
      assert columns == columns[..n] + [columns[n]];
    }
  }

  /** With distinct names, each column's counter is that column's count. */
  lemma {:induction false} RegionCountsValue(infos: seq<TableRow>, columns: seq<StatsColumn>, region: string, c: nat)
    requires DistinctNames(columns)
    requires c < |columns|
    ensures columns[c].name in RegionCounts(infos, columns, region)
    ensures RegionCounts(infos, columns, region)[columns[c].name] == CountMatches(infos, columns[c], region)
  {
    var n := |columns| - 1;
    if c < n {
      RegionCountsValue(infos, columns[..n], region, c);
    }
  }

  /** The sum of the counters a row stores under the column names. */
  function StoredSum(data: map<string, int>, columns: seq<StatsColumn>): int
    requires forall c :: 0 <= c < |columns| ==> columns[c].name in data
  {
    if columns == [] then 0 else StoredSum(data, columns[..|columns| - 1]) + data[columns[|columns| - 1].name]
  }

  lemma {:induction false} StoredSumIsTotal(infos: seq<TableRow>, columns: seq<StatsColumn>, region: string, data: map<string, int>)
    requires forall c :: 0 <= c < |columns| ==> columns[c].name in data && data[columns[c].name] == CountMatches(infos, columns[c], region)
    ensures StoredSum(data, columns) == Total(infos, columns, region)
  {
    if columns != [] {
      StoredSumIsTotal(infos, columns[..|columns| - 1], region, data);
    }
  }

  /** Every counter a row stores under a column name lies between 0 and the number of records. */
  lemma {:induction false} RegionCountsBounded(infos: seq<TableRow>, columns: seq<StatsColumn>, region: string)
    ensures forall k :: k in RegionCounts(infos, columns, region) ==> 0 <= RegionCounts(infos, columns, region)[k] <= |infos|
  {
    if columns != [] {
      RegionCountsBounded(infos, columns[..|columns| - 1], region);
    }
  }

  /**
   * A region row holds the region label as id and a counter for exactly the
   * column names and "total"; when the names are distinct and none is "total",
   * each counter is its column's count and "total" is the sum of the counters
   * the row stores.
   */
  lemma RegionRowTotal(infos: seq<TableRow>, columns: seq<StatsColumn>, region: string)
    requires DistinctNames(columns)
    requires forall c :: 0 <= c < |columns| ==> columns[c].name != TotalKey
    ensures RegionRow(infos, columns, region).id == region
    ensures RegionRow(infos, columns, region).data.Keys == (set c | c in columns :: c.name) + {TotalKey}
    ensures forall c :: 0 <= c < |columns| ==>
              columns[c].name in RegionRow(infos, columns, region).data &&
              RegionRow(infos, columns, region).data[columns[c].name] == CountMatches(infos, columns[c], region)
    ensures RegionRow(infos, columns, region).data[TotalKey] == StoredSum(RegionRow(infos, columns, region).data, columns)
  {
    var counts := RegionCounts(infos, columns, region);
    var data := counts[TotalKey := Total(infos, columns, region)];
    RegionCountsKeys(infos, columns, region);
    forall c | 0 <= c < |columns|
      ensures columns[c].name in data && data[columns[c].name] == CountMatches(infos, columns[c], region)
    {
      RegionCountsValue(infos, columns, region, c);
    }
    StoredSumIsTotal(infos, columns, region, data);
  }

  /** One record in "north" tagged "cat1": north counts it once, south not at all. */
  lemma NorthSouthExample()
    ensures var infos := [TableRow("A", map["x" := "cat1", RegionRole := "north"])];
            var columns := [StatsColumn("cat1", "x")];
            && RegionRow(infos, columns, "north") == StatsRow("north", map["cat1" := 1, TotalKey := 1])
            && RegionRow(infos, columns, "south") == StatsRow("south", map["cat1" := 0, TotalKey := 0])
  {
    var info := TableRow("A", map["x" := "cat1", RegionRole := "north"]);
    var column := StatsColumn("cat1", "x");
    assert Contains("cat1", "cat1");
    assert Contains("north", "north");
    assert !Contains("north", "south") by {
      assert "north"[..5] != "south";
      assert !Contains("north"[1..], "south");
    }
    assert [info][..0] == [];
    assert [column][..0] == [];
    assert Value(info, "x") == "cat1" && Value(info, RegionRole) == "north";
    assert Matches(info, column, "north") && !Matches(info, column, "south");
    assert CountMatches([info], column, "north") == 1;
    assert CountMatches([info], column, "south") == 0;
    assert RegionCounts([info], [column], "north") == map["cat1" := 1];
    assert Total([info], [column], "north") == 1;
    assert RegionCounts([info], [column], "south") == map["cat1" := 0];
    assert Total([info], [column], "south") == 0;
  }
}
