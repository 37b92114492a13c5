/**
 * The rows the application core passes to and from its table models
 * (CTableRow): an id plus a role-keyed value map.
 */
module Rows {

  /** A record row. JSON and spreadsheet values are carried as their text. */
  datatype TableRow = TableRow(id: string, data: map<string, string>)

  /** A row of the statistics table: a region label and its counters. */
  datatype StatsRow = StatsRow(id: string, data: map<string, int>)

  /** The text stored under role, or "" when the row has no such role. */
  function Value(row: TableRow, role: string): (v: string)
    ensures role in row.data ==> v == row.data[role]
    ensures role !in row.data ==> v == ""
  {
    if role in row.data then row.data[role] else ""
  }

  /** The ids of the rows, in row order. */
  function Ids(rows: seq<TableRow>): (ids: seq<string>)
    ensures |ids| == |rows|
    ensures forall i :: 0 <= i < |rows| ==> ids[i] == rows[i].id
  {
    seq(|rows|, i requires 0 <= i < |rows| => rows[i].id)
  }
}
