/**
 * Spreadsheet import (CAppCore::importExcel): the first sheet row is the
 * header, mapped cell by cell to roles; each later row becomes one record
 * whose id is its "identity" cell or, when that is empty, a fresh id. The
 * spreadsheet codec, the role lookup, the id generator and the record store
 * are collaborators and come in as parameters.
 */
module ExcelImport {
  import opened Wrappers
  import opened Seqs
  import opened Rows
  import opened Text

  const EmptyDataMessage: string := "导入的数据为空！"
  const FormatErrorMessage: string := "导入的格式有误！"
  const IdentityRole: string := "identity"

  /** The role of column j in a header mapping; QMap::value yields "" for a column it lacks. */
  function RoleAt(mapRole: map<nat, string>, j: nat): string
  {
    if j in mapRole then mapRole[j] else ""
  }

  /** The roles of columns 0 .. n-1 under a header mapping. */
  function ColumnRoles(mapRole: map<nat, string>, n: nat): (roles: seq<string>)
    ensures |roles| == n && forall j :: 0 <= j < n ==> roles[j] == RoleAt(mapRole, j)
  {
    seq(n, j requires 0 <= j < n => RoleAt(mapRole, j))
  }

  /** Every header label resolves to a non-empty role. */
  predicate HeaderResolves(header: seq<string>, roleOf: string -> string)
  {
    forall i :: 0 <= i < |header| ==> roleOf(header[i]) != ""
  }

  /** The column-to-role mapping of a header that resolves. */
  function HeaderRoles(header: seq<string>, roleOf: string -> string): map<nat, string>
  {
    map j: nat | j < |header| :: roleOf(header[j])
  }

  /**
   * Header mapping (lines 95-106), all or nothing: when every label resolves the
   * result maps each column to its role; one unresolved label leaves it empty.
   */
  method MapHeader(header: seq<string>, roleOf: string -> string) returns (mapRole: map<nat, string>)
    ensures HeaderResolves(header, roleOf) ==> mapRole == HeaderRoles(header, roleOf)
    ensures !HeaderResolves(header, roleOf) ==> mapRole == map[]
    ensures mapRole == map[] <==> |header| == 0 || !HeaderResolves(header, roleOf)
  {
    mapRole := map[];
    var col := 0;
    while col < |header|
      invariant 0 <= col <= |header|
      invariant HeaderResolves(header[..col], roleOf)
      invariant mapRole == HeaderRoles(header[..col], roleOf)
    {
      var role := roleOf(header[col]);
      if role == "" {
        mapRole := map[];
        break;
      }
      mapRole := mapRole[col := role];
      col := col + 1;
      assert header[..col] == header[..col - 1] + [header[col - 1]];
    }
    if col == |header| {
      assert header[..col] == header;
      if |header| > 0 {
        assert 0 in mapRole;
      }
    }
  }

  /**
   * The values a row contributes, cell by cell: the cell of a mapped column sets
   * its role, overwriting an earlier cell of the same role.
   */
  function RowData(cells: seq<string>, mapRole: map<nat, string>): map<string, string>
  {
    if cells == [] then map[]
    else
      var data := RowData(cells[..|cells| - 1], mapRole);
      var role := RoleAt(mapRole, |cells| - 1);
      if role == "" then data else data[role := cells[|cells| - 1]]
  }

  /**
   * A role has a value exactly when some cell of the row lies in a column mapped
   * to it; cells of unmapped columns, including those beyond the header,
   * contribute nothing.
   */
  lemma {:induction false} RowDataHasRole(cells: seq<string>, mapRole: map<nat, string>, r: string)
    ensures r in RowData(cells, mapRole) <==> r != "" && LastIndex(ColumnRoles(mapRole, |cells|), r) >= 0
  {
    if cells != [] {
      var n := |cells| - 1;
      var roles, role := ColumnRoles(mapRole, n), RoleAt(mapRole, n);
      RowDataHasRole(cells[..n], mapRole, r);
      assert ColumnRoles(mapRole, n + 1) == roles + [role];
      LastIndexAppend(roles, role, r);
    }
  }

  /** The value of a role is the text of the last cell whose column is mapped to it. */
  lemma {:induction false} RowDataLastCell(cells: seq<string>, mapRole: map<nat, string>, r: string)
    requires r in RowData(cells, mapRole)
    ensures LastIndex(ColumnRoles(mapRole, |cells|), r) >= 0
    ensures RowData(cells, mapRole)[r] == cells[LastIndex(ColumnRoles(mapRole, |cells|), r)]
  {
    var n := |cells| - 1;
    var roles, role := ColumnRoles(mapRole, n), RoleAt(mapRole, n);
    assert ColumnRoles(mapRole, n + 1) == roles + [role];
    LastIndexAppend(roles, role, r);
    RowDataHasRole(cells, mapRole, r);
    if r != role {
      RowDataLastCell(cells[..n], mapRole, r);
      assert cells[LastIndex(roles, r)] == cells[..n][LastIndex(roles, r)];
    } else {
      assert RowData(cells, mapRole) == RowData(cells[..n], mapRole)[role := cells[n]];
    }
  }

  /** The record built from one data row: its id is the identity value when non-empty, else freshId. */
  function ImportedRecord(cells: seq<string>, mapRole: map<nat, string>, freshId: string): (row: TableRow)
    ensures IdentityRole in row.data && row.data[IdentityRole] != "" ==> row.id == row.data[IdentityRole]
    ensures !(IdentityRole in row.data && row.data[IdentityRole] != "") ==> row.id == freshId
    ensures freshId != "" ==> row.id != ""
  {
    var data := RowData(cells, mapRole);
    TableRow(if IdentityRole in data && data[IdentityRole] != "" then data[IdentityRole] else freshId, data)
  }

  /** Builds one record from a data row (lines 111-126). */
  method BuildRecord(cells: seq<string>, mapRole: map<nat, string>, freshId: string) returns (row: TableRow)
    ensures row == ImportedRecord(cells, mapRole, freshId)
  {
    var id := "";
    var data: map<string, string> := map[];
    var col := 0;
    while col < |cells|
      invariant 0 <= col <= |cells|
      invariant data == RowData(cells[..col], mapRole)
      invariant id == if IdentityRole in data then data[IdentityRole] else ""
    {
      assert cells[..col + 1][..col] == cells[..col];
      var role := RoleAt(mapRole, col);
      if role != "" {
        data := data[role := cells[col]];
        if role == IdentityRole {
          id := cells[col];
        }
      }
      col := col + 1;
    }
    assert cells[..col] == cells;
    if id == "" {
      id := freshId;
    }
    row := TableRow(id, data);
  }

  /** Cells of columns past the last mapped one (say, beyond the header) do not change a row's values. */
  lemma {:induction false} CellsBeyondWidthIgnored(cells: seq<string>, mapRole: map<nat, string>, width: nat)
    requires forall j :: j in mapRole ==> j < width
    requires width <= |cells|
    ensures RowData(cells, mapRole) == RowData(cells[..width], mapRole)
    decreases |cells|
  {
    if |cells| == width {
      assert cells[..width] == cells;
    } else {
      var n := |cells| - 1;
      assert RoleAt(mapRole, n) == "";
      CellsBeyondWidthIgnored(cells[..n], mapRole, width);
      assert cells[..n][..width] == cells[..width];
    }
  }

  /** Under a header mapping, a data row longer than the header builds the same record as its first |header| cells. */
  lemma CellsBeyondHeaderIgnored(header: seq<string>, roleOf: string -> string, cells: seq<string>, freshId: string)
    requires |header| <= |cells|
    ensures ImportedRecord(cells, HeaderRoles(header, roleOf), freshId)
         == ImportedRecord(cells[..|header|], HeaderRoles(header, roleOf), freshId)
  {
    CellsBeyondWidthIgnored(cells, HeaderRoles(header, roleOf), |header|);
  }

  /** Two data rows without an identity value receive different ids when the generator never repeats. */
  lemma GeneratedIdsDistinct(sheet: seq<seq<string>>, mapRole: map<nat, string>, uuid: nat -> string, i: nat, k: nat)
    requires forall x: nat, y: nat :: x != y ==> uuid(x) != uuid(y)
    requires i < k < |sheet| - 1
    requires IdentityRole !in RowData(sheet[i + 1], mapRole) || RowData(sheet[i + 1], mapRole)[IdentityRole] == ""
    requires IdentityRole !in RowData(sheet[k + 1], mapRole) || RowData(sheet[k + 1], mapRole)[IdentityRole] == ""
    ensures ImportedRecords(sheet, mapRole, uuid)[i].id != ImportedRecords(sheet, mapRole, uuid)[k].id
  {
  }

  /** The records an import builds from the data rows of sheet under a resolved header mapping. */
  function ImportedRecords(sheet: seq<seq<string>>, mapRole: map<nat, string>, uuid: nat -> string): (records: seq<TableRow>)
    requires |sheet| > 0
    ensures |records| == |sheet| - 1
    ensures forall i :: 0 <= i < |records| ==> records[i] == ImportedRecord(sheet[i + 1], mapRole, uuid(i))
  {
    seq(|sheet| - 1, i requires 0 <= i < |sheet| - 1 => ImportedRecord(sheet[i + 1], mapRole, uuid(i)))
  }

  /** The summary line an import reports: "新增：<inserted>条；更新：<updated>条". */
  function SummaryMessage(inserted: nat, updated: nat): string
  {
    "新增：" + DecimalString(inserted) + "条；更新：" + DecimalString(updated) + "条"
  }

  lemma SplitAtDigits(p: string, q: string, t: string, a: string, b: string, c: string, d: string)
    requires AllDigits(a) && AllDigits(b) && AllDigits(c) && AllDigits(d)
    requires |q| > 0 && !('0' <= q[0] <= '9') && |t| > 0 && !('0' <= t[0] <= '9')
    requires p + a + q + b + t == p + c + q + d + t
    ensures a == c && b == d
  {
    var m := p + a + q + b + t;
    assert a + (q + b + t) == m[|p|..];
    assert c + (q + d + t) == (p + c + q + d + t)[|p|..];
    DigitsPrefixUnique(a, c, q + b + t, q + d + t);
    assert b + t == (q + b + t)[|q|..];
    assert d + t == (q + d + t)[|q|..];
    DigitsPrefixUnique(b, d, t, t);
  }

  /** The summary line determines both counts. */
  lemma SummaryDeterminesCounts(a: nat, b: nat, c: nat, d: nat)
    requires SummaryMessage(a, b) == SummaryMessage(c, d)
    ensures a == c && b == d
  {
    var q: string := "条；更新：";
    var t: string := "条";
    assert !('0' <= q[0] <= '9') && !('0' <= t[0] <= '9');
    SplitAtDigits("新增：", q, t, DecimalString(a), DecimalString(b), DecimalString(c), DecimalString(d));
    DecimalRoundTrip(a);
    DecimalRoundTrip(b);
    DecimalRoundTrip(c);
    DecimalRoundTrip(d);
  }

  /**
   * The whole import. sheet holds the spreadsheet rows as text, roleOf is the
   * configuration's label-to-role lookup, uuid(i) the fresh id generated for
   * data row i, and refresh the record store's (inserted, updated) answer for a
   * batch. batch is what is handed to the store, None when it is not called.
   */
  method ImportExcel(sheet: seq<seq<string>>, roleOf: string -> string, uuid: nat -> string,
                     refresh: seq<TableRow> -> (nat, nat))
    returns (msg: string, batch: Option<seq<TableRow>>)
    ensures |sheet| == 0 ==> msg == EmptyDataMessage && batch == None
    ensures |sheet| > 0 && (|sheet[0]| == 0 || !HeaderResolves(sheet[0], roleOf)) ==>
              msg == FormatErrorMessage && batch == None
    ensures |sheet| > 0 && |sheet[0]| > 0 && HeaderResolves(sheet[0], roleOf) ==>
              var records := ImportedRecords(sheet, HeaderRoles(sheet[0], roleOf), uuid);
              batch == Some(records) && msg == SummaryMessage(refresh(records).0, refresh(records).1)
  {
    var rowCount := |sheet|;
    if rowCount <= 0 {
      return EmptyDataMessage, None;
    }
    var mapRole := MapHeader(sheet[0], roleOf);
    if mapRole == map[] {
      return FormatErrorMessage, None;
    }
    var tableRowList: seq<TableRow> := [];
    var rowIndex := 1;
    while rowIndex < rowCount
      invariant 1 <= rowIndex <= rowCount
      invariant |tableRowList| == rowIndex - 1
      invariant forall i :: 0 <= i < rowIndex - 1 ==> tableRowList[i] == ImportedRecord(sheet[i + 1], mapRole, uuid(i))
    {
      var tableRow := BuildRecord(sheet[rowIndex], mapRole, uuid(rowIndex - 1));
      tableRowList := tableRowList + [tableRow];
      rowIndex := rowIndex + 1;
    }
    assert tableRowList == ImportedRecords(sheet, mapRole, uuid);
    var retValue := refresh(tableRowList);
    msg := SummaryMessage(retValue.0, retValue.1);
    batch := Some(tableRowList);
  }
}
