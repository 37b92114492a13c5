/**
 * The shapes the application core hands to and takes from the durable
 * table: the id-to-payload map written after an upsert (onRefreshData), the
 * id list deleted after a removal (onDeleteData), and the rows rebuilt from
 * the whole table on load (updateInfomation). JSON encoding and decoding come
 * in as parameters.
 */
module Persistence {
  import opened Wrappers
  import opened Seqs
  import opened Rows
  import opened Text

  /** The map written for a batch, row by row: a later row with the same id overwrites an earlier one. */
  function PayloadMap(rows: seq<TableRow>, encode: map<string, string> -> string): map<string, string>
  {
    if rows == [] then map[]
    else
      var last := rows[|rows| - 1];
      PayloadMap(rows[..|rows| - 1], encode)[last.id := encode(last.data)]
  }

  /** The map has an entry for exactly the ids of the batch, holding the encoding of the last row with that id. */
  lemma {:induction false} PayloadMapLastRow(rows: seq<TableRow>, encode: map<string, string> -> string, id: string)
    ensures id in PayloadMap(rows, encode) <==> LastIndex(Ids(rows), id) >= 0
    ensures id in PayloadMap(rows, encode) ==> PayloadMap(rows, encode)[id] == encode(rows[LastIndex(Ids(rows), id)].data)
  {
    if rows != [] {
      var n := |rows| - 1;
      PayloadMapLastRow(rows[..n], encode, id);
      assert Ids(rows) == Ids(rows[..n]) + [rows[n].id];
      LastIndexAppend(Ids(rows[..n]), rows[n].id, id);
    }
  }

  /** The payload map of onRefreshData (lines 269-274). */
  method RefreshPayloads(rows: seq<TableRow>, encode: map<string, string> -> string) returns (tableData: map<string, string>)
    ensures tableData == PayloadMap(rows, encode)
  {
    tableData := map[];
    var i := 0;
    while i < |rows|
      invariant 0 <= i <= |rows|
      invariant tableData == PayloadMap(rows[..i], encode)
    {
      assert rows[..i + 1][..i] == rows[..i];
      tableData := tableData[rows[i].id := encode(rows[i].data)];
      i := i + 1;
    }
    assert rows[..i] == rows;
  }

  /** The id list of onDeleteData (lines 287-291): one id per removed row, in row order. */
  method DeleteIds(rows: seq<TableRow>) returns (ids: seq<string>)
    ensures |ids| == |rows|
    ensures forall i :: 0 <= i < |rows| ==> ids[i] == rows[i].id
  {
    ids := [];
    var i := 0;
    while i < |rows|
      invariant 0 <= i <= |rows|
      invariant ids == Ids(rows[..i])
    {
      ids := ids + [rows[i].id];
      i := i + 1;
      assert ids == Ids(rows[..i]);
    }
    assert rows[..i] == rows;
  }

  /** For the same rows, the ids deleted are exactly the keys an upsert writes. */
  lemma DeleteCoversRefresh(rows: seq<TableRow>, encode: map<string, string> -> string)
    ensures PayloadMap(rows, encode).Keys == set i | 0 <= i < |rows| :: rows[i].id
  {
    forall id ensures id in PayloadMap(rows, encode) <==> id in set i | 0 <= i < |rows| :: rows[i].id {
      PayloadMapLastRow(rows, encode, id);
      if id in set i | 0 <= i < |rows| :: rows[i].id {
        var i :| 0 <= i < |rows| && rows[i].id == id;
        assert Ids(rows)[i] == id;
      }
    }
  }

  /** QJsonDocument::object() of a parse: the parsed object, or the empty object when parsing failed. */
  function ObjectOf(doc: Option<map<string, string>>): (data: map<string, string>)
    ensures doc.None? ==> data == map[]
    ensures doc.Some? ==> data == doc.value
  {
    if doc.Some? then doc.value else map[]
  }

  /**
   * rows is what loading stored yields: one row per stored entry, in ascending
   * id order, each holding the parse of its payload (empty when it does not parse).
   */
  ghost predicate IsLoadOf(stored: map<string, string>, parse: string -> Option<map<string, string>>, rows: seq<TableRow>)
  {
    && |rows| == |stored|
    && (forall i :: 0 <= i < |rows| ==> rows[i].id in stored && rows[i].data == ObjectOf(parse(stored[rows[i].id])))
    && (forall i, j :: 0 <= i < j < |rows| ==> LexLess(rows[i].id, rows[j].id))
    && (forall id :: id in stored ==> id in Ids(rows))
  }

  /** Loading part-way: rows holds entries of stored, and every entry is either loaded or remaining. */
  ghost predicate LoadedEntries(stored: map<string, string>, parse: string -> Option<map<string, string>>,
                                rows: seq<TableRow>, remaining: set<string>)
  {
    && remaining <= stored.Keys
    && |rows| + |remaining| == |stored|
    && (forall i :: 0 <= i < |rows| ==>
          rows[i].id in stored && rows[i].id !in remaining && rows[i].data == ObjectOf(parse(stored[rows[i].id])))
    && (forall id :: id in stored ==> id in remaining || id in Ids(rows))
  }

  /** Loading part-way: rows is in ascending id order, below every key still remaining. */
  ghost predicate LoadedInOrder(rows: seq<TableRow>, remaining: set<string>)
  {
    && (forall i, j :: 0 <= i < j < |rows| ==> LexLess(rows[i].id, rows[j].id))
    && (forall i, k :: 0 <= i < |rows| && k in remaining ==> LexLess(rows[i].id, k))
  }

  lemma LoadStepEntries(stored: map<string, string>, parse: string -> Option<map<string, string>>,
                        rows: seq<TableRow>, remaining: set<string>, key: string)
    requires LoadedEntries(stored, parse, rows, remaining)
    requires key in remaining
    ensures LoadedEntries(stored, parse, rows + [TableRow(key, ObjectOf(parse(stored[key])))], remaining - {key})
  {
    var rows' := rows + [TableRow(key, ObjectOf(parse(stored[key])))];
    assert |remaining - {key}| == |remaining| - 1;
    assert Ids(rows') == Ids(rows) + [key];
  }

  /** Taking the least remaining key next keeps the load in ascending order. */
  lemma LoadStepOrder(rows: seq<TableRow>, remaining: set<string>, row: TableRow)
    requires LoadedInOrder(rows, remaining)
    requires row.id in remaining && forall k :: k in remaining && k != row.id ==> LexLess(row.id, k)
    ensures LoadedInOrder(rows + [row], remaining - {row.id})
  {
  }

  /** Rebuilds the rows from the stored table (lines 55-66), walking its keys in ascending order as QMap does. */
  method LoadRows(stored: map<string, string>, parse: string -> Option<map<string, string>>) returns (rows: seq<TableRow>)
    ensures IsLoadOf(stored, parse, rows)
  {
    rows := [];
    var remaining := stored.Keys;
    while remaining != {}
      invariant LoadedEntries(stored, parse, rows, remaining)
      invariant LoadedInOrder(rows, remaining)
      decreases |remaining|
    {
      LeastExists(remaining);
      var key :| key in remaining && forall k :: k in remaining && k != key ==> LexLess(key, k);
      LoadStepEntries(stored, parse, rows, remaining, key);
      LoadStepOrder(rows, remaining, TableRow(key, ObjectOf(parse(stored[key]))));
      rows := rows + [TableRow(key, ObjectOf(parse(stored[key])))];
      remaining := remaining - {key};
    }
  }

  /** Loaded rows never share an id. */
  lemma LoadedIdsDistinct(stored: map<string, string>, parse: string -> Option<map<string, string>>, rows: seq<TableRow>)
    requires IsLoadOf(stored, parse, rows)
    ensures forall i, j :: 0 <= i < |rows| && 0 <= j < |rows| && i != j ==> rows[i].id != rows[j].id
  {
    forall i, j | 0 <= i < |rows| && 0 <= j < |rows| && i != j ensures rows[i].id != rows[j].id {
      LexLessIrreflexive(rows[i].id);
    }
  }

  /**
   * Writing a batch and loading it back, with a codec whose parse inverts its
   * encoding, gives one row per distinct id of the batch, carrying the values
   * of the last row with that id.
   */
  lemma StoreThenLoad(batch: seq<TableRow>, encode: map<string, string> -> string,
                      parse: string -> Option<map<string, string>>, loaded: seq<TableRow>)
    requires forall d :: parse(encode(d)) == Some(d)
    requires IsLoadOf(PayloadMap(batch, encode), parse, loaded)
    ensures forall id :: id in Ids(batch) <==> id in Ids(loaded)
    ensures forall i :: 0 <= i < |loaded| ==> LastIndex(Ids(batch), loaded[i].id) >= 0
    ensures forall i :: 0 <= i < |loaded| ==> loaded[i].data == batch[LastIndex(Ids(batch), loaded[i].id)].data
  {
    var stored := PayloadMap(batch, encode);
    forall id ensures id in Ids(batch) <==> id in Ids(loaded) {
      PayloadMapLastRow(batch, encode, id);
      if id in Ids(loaded) {
        var i :| 0 <= i < |loaded| && Ids(loaded)[i] == id;
        assert loaded[i].id in stored;
      }
    }
    forall i | 0 <= i < |loaded|
      ensures LastIndex(Ids(batch), loaded[i].id) >= 0
      ensures loaded[i].data == batch[LastIndex(Ids(batch), loaded[i].id)].data
    {
      PayloadMapLastRow(batch, encode, loaded[i].id);
    }
  }
}
