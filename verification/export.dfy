/**
 * Spreadsheet export (CAppCore::exportExcel): the configured item columns
 * give each role a column index; every requested id whose record has data
 * becomes one fixed-width row with each value placed at the column of its
 * role. The record store's lookup comes in as a parameter; the header and
 * rows are what is handed to the spreadsheet writer.
 */
module ExcelExport {
  import opened Seqs

  /** A configured item column: the role it shows and its header text. */
  datatype ItemColumn = ItemColumn(role: string, name: string)

  /** The roles of the columns, in column order. */
  function Roles(columns: seq<ItemColumn>): (roles: seq<string>)
    ensures |roles| == |columns| && forall c :: 0 <= c < |columns| ==> roles[c] == columns[c].role
  {
    seq(|columns|, c requires 0 <= c < |columns| => columns[c].role)
  }

  /** The column a role is written to: the last column configured with it (-1 when none is). */
  function ColumnOf(columns: seq<ItemColumn>, role: string): int
  {
    LastIndex(Roles(columns), role)
  }

  /**
   * One exported row: column c holds the value of its role when c is the column
   * that role is written to, and "" otherwise.
   */
  function ProjectRow(columns: seq<ItemColumn>, data: map<string, string>): (row: seq<string>)
    ensures |row| == |columns|
    ensures forall k :: k in data && ColumnOf(columns, k) >= 0 ==> row[ColumnOf(columns, k)] == data[k]
    ensures forall c :: 0 <= c < |row| ==> row[c] == "" || (columns[c].role in data && row[c] == data[columns[c].role])
  {
    seq(|columns|, c requires 0 <= c < |columns| =>
      if columns[c].role in data && ColumnOf(columns, columns[c].role) == c then data[columns[c].role] else "")
  }

  /** The requested ids whose record has data, in request order. */
  function KeptIds(ids: seq<string>, rowData: string -> map<string, string>): (kept: seq<string>)
    ensures |kept| <= |ids|
    ensures forall k :: 0 <= k < |kept| ==> kept[k] in ids && rowData(kept[k]) != map[]
    ensures forall i :: 0 <= i < |ids| && rowData(ids[i]) != map[] ==> ids[i] in kept
  {
    if ids == [] then []
    else
      var last := ids[|ids| - 1];
      KeptIds(ids[..|ids| - 1], rowData) + (if rowData(last) == map[] then [] else [last])
  }

  /**
   * The column map and header (lines 154-162): each role maps to the index of
   * its last column, and the header names the columns in order.
   */
  method BuildColumnMap(columns: seq<ItemColumn>) returns (mapCol: map<string, int>, header: seq<string>)
    ensures |header| == |columns| && forall c :: 0 <= c < |columns| ==> header[c] == columns[c].name
    ensures forall r :: r in mapCol <==> ColumnOf(columns, r) >= 0
    ensures forall r :: r in mapCol ==> mapCol[r] == ColumnOf(columns, r)
  {
    mapCol := map[];
    header := [];
    var col := 0;
    while col < |columns|
      invariant 0 <= col <= |columns|
      invariant |header| == col && forall c :: 0 <= c < col ==> header[c] == columns[c].name
      invariant forall r :: r in mapCol <==> ColumnOf(columns[..col], r) >= 0
      invariant forall r :: r in mapCol ==> mapCol[r] == ColumnOf(columns[..col], r)
    {
      assert Roles(columns[..col + 1]) == Roles(columns[..col]) + [columns[col].role];
      forall r ensures ColumnOf(columns[..col + 1], r) == if columns[col].role == r then col else ColumnOf(columns[..col], r) {
        LastIndexAppend(Roles(columns[..col]), columns[col].role, r);
      }
      mapCol := mapCol[columns[col].role := col];
      header := header + [columns[col].name];
      col := col + 1;
    }
    assert columns[..col] == columns;
  }

  /** A row part-way through filling: the values of the roles not yet pending are placed. */
  ghost function PartialRow(columns: seq<ItemColumn>, data: map<string, string>, pending: set<string>): seq<string>
  {
    seq(|columns|, c requires 0 <= c < |columns| =>
      if columns[c].role in data && columns[c].role !in pending && ColumnOf(columns, columns[c].role) == c
      then data[columns[c].role] else "")
  }

  lemma PartialRowStep(columns: seq<ItemColumn>, data: map<string, string>, pending: set<string>, k: string)
    requires k in pending && k in data
    ensures ColumnOf(columns, k) >= 0 ==>
              PartialRow(columns, data, pending - {k}) == PartialRow(columns, data, pending)[ColumnOf(columns, k) := data[k]]
    ensures ColumnOf(columns, k) < 0 ==> PartialRow(columns, data, pending - {k}) == PartialRow(columns, data, pending)
  {
  }

  /** Fills one row in place (lines 168-174): each value goes to its role's column; roles without one are dropped. */
  method ProjectRecord(columns: seq<ItemColumn>, mapCol: map<string, int>, data: map<string, string>) returns (row: seq<string>)
    requires forall r :: r in mapCol <==> ColumnOf(columns, r) >= 0
    requires forall r :: r in mapCol ==> mapCol[r] == ColumnOf(columns, r)
    ensures row == ProjectRow(columns, data)
  {
    var cells := new string[|columns|](_ => "");
    var keys := data.Keys;
    assert cells[..] == PartialRow(columns, data, keys);
    while keys != {}
      invariant keys <= data.Keys
      invariant cells[..] == PartialRow(columns, data, keys)
      decreases keys
    {
      var k :| k in keys;
      PartialRowStep(columns, data, keys, k);
      if k in mapCol {
        cells[mapCol[k]] := data[k];
      }
      keys := keys - {k};
    }
    row := cells[..];
    assert row == ProjectRow(columns, data);
  }

  /** The projections of the records of the given ids, in order. */
  ghost function Projections(columns: seq<ItemColumn>, kept: seq<string>, rowData: string -> map<string, string>): seq<seq<string>>
  {
    seq(|kept|, k requires 0 <= k < |kept| => ProjectRow(columns, rowData(kept[k])))
  }

  lemma ProjectionsAppend(columns: seq<ItemColumn>, kept: seq<string>, id: string, rowData: string -> map<string, string>)
    ensures Projections(columns, kept + [id], rowData) == Projections(columns, kept, rowData) + [ProjectRow(columns, rowData(id))]
  {
  }

  lemma KeptIdsStep(ids: seq<string>, i: nat, rowData: string -> map<string, string>)
    requires i < |ids|
    ensures KeptIds(ids[..i + 1], rowData) == KeptIds(ids[..i], rowData) + (if rowData(ids[i]) == map[] then [] else [ids[i]])
  {
    assert ids[..i + 1][..i] == ids[..i];
  }

  /** The positions in ids of the kept ids, in request order. */
  ghost function KeptPositions(ids: seq<string>, rowData: string -> map<string, string>): seq<nat>
  {
    if ids == [] then []
    else
      var n := |ids| - 1;
      KeptPositions(ids[..n], rowData) + (if rowData(ids[n]) == map[] then [] else [n])
  }

  /** The k-th kept id is the request at position KeptPositions[k]. */
  lemma {:induction false} KeptPositionsIndex(ids: seq<string>, rowData: string -> map<string, string>)
    ensures |KeptPositions(ids, rowData)| == |KeptIds(ids, rowData)|
    ensures forall k :: 0 <= k < |KeptPositions(ids, rowData)| ==>
              KeptPositions(ids, rowData)[k] < |ids| && KeptIds(ids, rowData)[k] == ids[KeptPositions(ids, rowData)[k]]
  {
    if ids != [] {
      var n := |ids| - 1;
      KeptPositionsIndex(ids[..n], rowData);
    }
  }

  /** The positions grow strictly: each request gives at most one row, in request order. */
  lemma {:induction false} KeptPositionsIncreasing(ids: seq<string>, rowData: string -> map<string, string>)
    ensures forall k :: 0 <= k < |KeptPositions(ids, rowData)| ==> KeptPositions(ids, rowData)[k] < |ids|
    ensures forall k, l :: 0 <= k < l < |KeptPositions(ids, rowData)| ==> KeptPositions(ids, rowData)[k] < KeptPositions(ids, rowData)[l]
  {
    if ids != [] {
      KeptPositionsIncreasing(ids[..|ids| - 1], rowData);
    }
  }

  /** The values of a sequence of positions, as a set. */
  ghost function PositionSet(idx: seq<nat>): set<nat>
  {
    set k | 0 <= k < |idx| :: idx[k]
  }

  lemma PositionSetAppend(idx: seq<nat>, n: nat)
    ensures PositionSet(idx + [n]) == PositionSet(idx) + {n}
  {
    var idx' := idx + [n];
    forall x: nat | x in PositionSet(idx') ensures x in PositionSet(idx) + {n} {
      var k :| 0 <= k < |idx'| && idx'[k] == x;
      if k < |idx| {
        assert idx[k] in PositionSet(idx);
      }
    }
    forall x: nat | x in PositionSet(idx) ensures x in PositionSet(idx') {
      var k :| 0 <= k < |idx| && idx[k] == x;
      assert idx'[k] == x;
    }
    assert idx'[|idx|] == n;
  }

  /** The requests with data, as a set of positions. */
  ghost function WithData(ids: seq<string>, rowData: string -> map<string, string>): set<nat>
  {
    set i: nat | i < |ids| && rowData(ids[i]) != map[]
  }

  lemma WithDataLast(ids: seq<string>, rowData: string -> map<string, string>)
    requires ids != []
    ensures WithData(ids, rowData)
         == WithData(ids[..|ids| - 1], rowData) + (if rowData(ids[|ids| - 1]) == map[] then {} else {|ids| - 1})
  {
    var n := |ids| - 1;
    forall i: nat | i < n ensures ids[..n][i] == ids[i] { }
  }

  /** The positions are exactly the requests whose record has data. */
  lemma {:induction false} KeptPositionsExact(ids: seq<string>, rowData: string -> map<string, string>)
    ensures PositionSet(KeptPositions(ids, rowData)) == WithData(ids, rowData)
  {
    if ids != [] {
      var n := |ids| - 1;
      KeptPositionsExact(ids[..n], rowData);
      WithDataLast(ids, rowData);
      if rowData(ids[n]) == map[] {
        assert KeptPositions(ids, rowData) == KeptPositions(ids[..n], rowData);
      } else {
        assert KeptPositions(ids, rowData) == KeptPositions(ids[..n], rowData) + [n];
        PositionSetAppend(KeptPositions(ids[..n], rowData), n);
      }
    }
  }

  /**
   * The kept ids are the requested ids with data, one per request and in
   * request order: the k-th kept id is the request at a strictly increasing
   * position idx[k], and those positions are exactly the requests with data.
   */
  lemma KeptIdsInRequestOrder(ids: seq<string>, rowData: string -> map<string, string>)
    ensures var idx := KeptPositions(ids, rowData);
            && |idx| == |KeptIds(ids, rowData)|
            && (forall k :: 0 <= k < |idx| ==> idx[k] < |ids| && KeptIds(ids, rowData)[k] == ids[idx[k]])
            && (forall k, l :: 0 <= k < l < |idx| ==> idx[k] < idx[l])
            && (set k | 0 <= k < |idx| :: idx[k]) == (set i: nat | i < |ids| && rowData(ids[i]) != map[])
  {
    KeptPositionsIndex(ids, rowData);
    KeptPositionsIncreasing(ids, rowData);
    KeptPositionsExact(ids, rowData);
    assert PositionSet(KeptPositions(ids, rowData)) == WithData(ids, rowData);
  }

  /** Two requests for the same id with data give two rows. */
  lemma RepeatedRequestRepeats(rowData: string -> map<string, string>)
    requires rowData("x") != map[]
    ensures KeptIds(["x", "x"], rowData) == ["x", "x"]
  {
  }

  /**
   * The export (lines 154-176): the header names the columns in order, and the
   * rows are the projections of the kept records, in request order.
   */
  method ExportExcel(columns: seq<ItemColumn>, ids: seq<string>, rowData: string -> map<string, string>)
    returns (header: seq<string>, rows: seq<seq<string>>)
    ensures |header| == |columns| && forall c :: 0 <= c < |columns| ==> header[c] == columns[c].name
    ensures |rows| == |KeptIds(ids, rowData)|
    ensures forall i :: 0 <= i < |rows| ==> rows[i] == ProjectRow(columns, rowData(KeptIds(ids, rowData)[i]))
  {
    var mapCol;
    mapCol, header := BuildColumnMap(columns);
    rows := [];
    var i := 0;
    while i < |ids|
      invariant 0 <= i <= |ids|
      invariant rows == Projections(columns, KeptIds(ids[..i], rowData), rowData)
    {
      KeptIdsStep(ids, i, rowData);
      ProjectionsAppend(columns, KeptIds(ids[..i], rowData), ids[i], rowData);
      var data := rowData(ids[i]);
      if data != map[] {
        var row := ProjectRecord(columns, mapCol, data);
        rows := rows + [row];
      }
      i := i + 1;
    }
    assert ids[..i] == ids;
    assert rows == Projections(columns, KeptIds(ids, rowData), rowData);
  }

  /** The width the source gives a row, QVector(mapCol.size()): the number of distinct roles. */
  function AsWrittenRowWidth(columns: seq<ItemColumn>): nat
  {
    |set c | c in columns :: c.role|
  }

  /** No two columns share a role. */
  predicate DistinctRoles(columns: seq<ItemColumn>)
  {
    forall i, j :: 0 <= i < j < |columns| ==> columns[i].role != columns[j].role
  }

  lemma {:induction false} DistinctRolesCount(columns: seq<ItemColumn>)
    requires DistinctRoles(columns)
    ensures AsWrittenRowWidth(columns) == |columns|
  {
    if columns != [] {
      var n := |columns| - 1;
      DistinctRolesCount(columns[..n]);
      assert (set c | c in columns :: c.role) == (set c | c in columns[..n] :: c.role) + {columns[n].role};
      assert columns[n].role !in (set c | c in columns[..n] :: c.role);
    }
  }

  /**
   * With distinct roles the source's row width is the number of columns, so
   * every column index it writes lies inside the row and the corrected
   * projection agrees with it.
   */
  lemma DistinctRolesFit(columns: seq<ItemColumn>, role: string)
    requires DistinctRoles(columns)
    ensures AsWrittenRowWidth(columns) == |columns|
    ensures ColumnOf(columns, role) < AsWrittenRowWidth(columns)
  {
    DistinctRolesCount(columns);
  }

  /**
   * Two columns sharing a role: the source's row has one cell, but a value of
   * that role is written to column index 1, past the end of the row.
   */
  lemma DuplicateRoleOverruns()
    ensures var columns := [ItemColumn("a", "A"), ItemColumn("a", "B")];
            AsWrittenRowWidth(columns) == 1 && ColumnOf(columns, "a") == 1
  {
    var columns := [ItemColumn("a", "A"), ItemColumn("a", "B")];
    assert (set c | c in columns :: c.role) == {"a"};
  }
}
