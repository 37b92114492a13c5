# Record import, statistics, export and persistence shaping of the xiantao application core

This project models the deterministic algorithms inside `CAppCore`
(`Framework/appcore.cpp`). It leaves out the SQLite store, the spreadsheet
and Word codecs, and the GUI. What the core does with the data those
collaborators hand it is modelled in four modules:

- **ExcelImport** (`importExcel`). The first spreadsheet row is the header.
  Each header label is mapped to a role through the configuration's lookup.
  The mapping is all or nothing: one label without a role rejects the import.
  Each later row becomes one record. Only cells of mapped columns contribute.
  The record id is the `identity` value, or a freshly generated id when that
  value is empty. The batch goes to the record store, whose `(inserted, updated)`
  answer is rendered into the summary message.
- **StatsAggregation** (`updateStats`). There is one statistics row per
  configured region. It counts the records whose column-role value contains
  the column name and whose `region` value contains the region label. Each
  count is stored under the column name, and their sum under `total`.
- **ExcelExport** (`exportExcel`). It builds a role-to-column map from the item
  columns. Every requested id whose record has data becomes one row. Each value
  sits at its role's column; keys without a column are dropped.
- **Persistence** (`onRefreshData`, `onDeleteData`, `updateInfomation`). It
  models the id-to-payload map written after an upsert and the id list deleted
  after a removal. It also models the rows rebuilt from the stored table. Those
  come out in ascending id order, because QMap iterates its keys that way. A
  payload that does not parse still yields a row, with empty data.

Helpers: **Text** models QString's `contains`, `operator<` and `number`.
QString compares UTF-16 code units, so `operator<` is modelled as the
lexicographic order of the UTF-16 encodings: a character above U+FFFF sorts
before U+E000..U+FFFF, because its lead surrogate is smaller.
**Seqs** defines the "last occurrence wins" index shared by the three loops
that fill a map. **Rows** holds the row types. **Wrappers** holds `Option`.

Every collaborator is a parameter: the role lookup (`roleOf`), the UUID
generator (`uuid`, one id per data row), the record store's upsert answer
(`refresh`) and lookup (`rowData`), and JSON encoding and parsing
(`encode`, `parse`).

The model keeps these behaviours of the code:
- Any header label without a role rejects the import. Unmapped headers are not
  skipped.
- A payload that does not parse gives a row with empty data. It is not skipped.
- Loaded rows are ordered by id, not by insertion.
- A statistics column has a single `name`. It is both the text searched for
  and the key the count is stored under.

## Model

| member | source | states |
|---|---|---|
| ExcelImport.MapHeader | Framework/appcore.cpp:95-107 | if every header label resolves, each column maps to its label's role; otherwise the mapping is empty. It is empty exactly when the header has no cells or some label has no role (the format-error condition) |
| ExcelImport.RowDataHasRole | Framework/appcore.cpp:113-117 | a row has a value for a role exactly when some cell lies in a column mapped to that role; unmapped cells, including those beyond the header, add nothing |
| ExcelImport.RowDataLastCell | Framework/appcore.cpp:113-117 | a role's value is the text of the last cell whose column maps to it |
| ExcelImport.ImportedRecord | Framework/appcore.cpp:118-126 | the record id is the identity value when that is non-empty, otherwise the fresh id; with a non-empty fresh id, the record id is never empty |
| ExcelImport.BuildRecord | Framework/appcore.cpp:111-126 | the cell loop builds exactly the record ImportedRecord describes |
| ExcelImport.CellsBeyondHeaderIgnored | Framework/appcore.cpp:113-116 | a data row longer than the header builds the same record as its first header-width cells |
| ExcelImport.GeneratedIdsDistinct | Framework/appcore.cpp:123-126 | two data rows without an identity value get different ids when the generator never repeats |
| ExcelImport.ImportedRecords | Framework/appcore.cpp:108-128 | one record per data row (the header is excluded), in row order, each built from its own row |
| ExcelImport.ImportExcel | Framework/appcore.cpp:87-131 | no rows gives the empty-data message and no store call; a header that does not fully resolve gives the format-error message and no store call; otherwise the store receives the records of all data rows, and the message reports its counts |
| ExcelImport.SummaryDeterminesCounts | Framework/appcore.cpp:130 | the summary message determines both the inserted and the updated count |
| Text.ContainsIff | Framework/appcore.cpp:348-349 | the substring test holds exactly when the needle occurs at some position of the text |
| Text.DecimalRoundTrip | Framework/appcore.cpp:130 | reading back the decimal rendering of a count gives that count |
| Text.LexLessIsUtf16Order | Framework/appcore.cpp:58 | the key order holds exactly when the UTF-16 encoding of the first key is lexicographically smaller than that of the second, as QString compares code units |
| Text.LeastExists | Framework/appcore.cpp:58 | every non-empty set of keys has a least key under QString ordering, which is the key QMap iteration visits next |
| StatsAggregation.CountMatches | Framework/appcore.cpp:343-353 | a category count is at most the number of records |
| StatsAggregation.CountIsCardinality | Framework/appcore.cpp:346-353 | a category count equals the number of record positions whose role value contains the name and whose region value contains the region |
| StatsAggregation.CountOrderIndependent | Framework/appcore.cpp:346-353 | reordering the records does not change a count |
| StatsAggregation.RegionRowOrderIndependent | Framework/appcore.cpp:337-358 | reordering the records does not change a region's row |
| StatsAggregation.UpdateStats | Framework/appcore.cpp:329-361 | one row per configured region, in region order; each row's id is the region label and its counters are those of RegionRow |
| StatsAggregation.RegionCountsBounded | Framework/appcore.cpp:343-355 | every counter stored under a column name lies between 0 and the number of records |
| StatsAggregation.RegionRowTotal | Framework/appcore.cpp:337-357 | the row holds counters for exactly the column names plus "total". With distinct names, none of them "total", each counter is its column's count and "total" is the sum of the stored counters |
| StatsAggregation.NorthSouthExample | Framework/appcore.cpp:335-358 | one "north" record tagged "cat1" gives north {cat1: 1, total: 1} and south {cat1: 0, total: 0} |
| ExcelExport.BuildColumnMap | Framework/appcore.cpp:154-162 | each role maps to its last configured column, a role with no column is absent, and the header names the columns in order |
| ExcelExport.ProjectRow | Framework/appcore.cpp:168-174 | a row has one cell per column; each value whose role has a column is at that column; every other cell is empty or holds the value of its own column's role |
| ExcelExport.ProjectRecord | Framework/appcore.cpp:168-174 | filling the row array in place yields exactly ProjectRow |
| ExcelExport.KeptIds | Framework/appcore.cpp:164-167 | the exported ids are requested ids with data, and every requested id with data is exported |
| ExcelExport.KeptIdsInRequestOrder | Framework/appcore.cpp:164-167 | the k-th exported id is the request at a strictly increasing position, and those positions are exactly the requests whose record has data: request order is kept and a repeated request is exported once per request |
| ExcelExport.RepeatedRequestRepeats | Framework/appcore.cpp:164-175 | requesting an id with data twice exports it twice |
| ExcelExport.ExportExcel | Framework/appcore.cpp:150-176 | the header lists the column names; the rows are the projections of the kept records, in request order |
| ExcelExport.DistinctRolesFit | Framework/appcore.cpp:160-173 | with distinct roles, the row width the source allocates equals the column count, and every column index it writes lies inside the row |
| ExcelExport.DuplicateRoleOverruns | Framework/appcore.cpp:168-173 | with two columns sharing a role, the allocated row has one cell but the role's value is written to index 1 |
| Persistence.PayloadMapLastRow | Framework/appcore.cpp:269-274 | the written map has an entry for exactly the batch's ids, holding the encoding of the last row with that id |
| Persistence.RefreshPayloads | Framework/appcore.cpp:267-274 | the loop builds exactly the payload map PayloadMap describes |
| Persistence.DeleteIds | Framework/appcore.cpp:285-291 | one id per removed row, in row order |
| Persistence.DeleteCoversRefresh | Framework/appcore.cpp:269-291 | for the same rows, the ids deleted are exactly the keys an upsert writes |
| Persistence.LoadRows | Framework/appcore.cpp:55-66 | one row per stored entry, in strictly ascending id order; each holds the parse of its payload, or empty data when the payload does not parse |
| Persistence.LoadedIdsDistinct | Framework/appcore.cpp:58-66 | loaded rows never share an id |
| Persistence.StoreThenLoad | Framework/appcore.cpp:58-65 | if parsing inverts encoding, loading what an upsert wrote gives one row per distinct batch id, with that id's last row values |

## Findings

| source | as written | input that shows it | evidently intended | confidence | as-written member | corrected member |
|---|---|---|---|---|---|---|
| Framework/appcore.cpp:168-173 | the row is allocated with `mapCol.size()` cells, the number of distinct roles, but written at the column's position | two item columns with role "a", and a record holding "a": the row has 1 cell and the value is written to index 1 | one cell per item column, matching the header built at line 161 | not executed; medium (only configurations that repeat a role) | ExcelExport.DuplicateRoleOverruns | ExcelExport.ProjectRow |

With distinct roles the two widths coincide (ExcelExport.DistinctRolesFit), so the corrected projection agrees with the code there.

## Left out

- SQLite persistence (`CSqliteWork` open, `setActivedTable`, `selectAll`, `insert`, `del`). The model produces the map or id list handed to the store, and takes the stored map as input. The branch where the database fails to open is not modelled; in it, the store is skipped and only the statistics refresh.
- JSON encoding and decoding (`QJsonDocument`, `QJsonObject::fromVariantMap`). These are parameters. Record values are assumed to be strings and are modelled as text. A non-string value (a number or a boolean) is not modelled: the export would write it as an empty cell (`QJsonValue::toString`, line 173), while the statistics would search its text form (`QVariant::toString`, line 348).
- The spreadsheet and Word codecs (`XlsxTool::getData`, `XlsxTool::saveData`, `WordTool::saveInfomation`). Imported cells are taken as text. Column widths (`xlsxWidth`, doubles), row height and sheet name are not modelled; the export yields the header names and the rows.
- Record-store internals (`CTableModel::refreshRowList`, `setRowList`, `rowData`, `rowList`). They are opaque: the store's upsert answer and lookup are parameters, and the model does not define upsert semantics.
- The calls to `updateStats` after load, refresh and delete. UpdateStats is modelled over the record list it is given, not over the store's current state.
- `exportDocument`, `loadPhoto`, `savePhoto`, `saveImage`, `printExcel`, `getAppDir`. These are file, image, printing and process side effects. `exportTemplate` is ExportExcel with no ids.
- The constructor's signal/slot wiring, `init`, `initDetailModel` and `initStatsModel`. This is framework plumbing.
- `QUuid::createUuid`. It is modelled as a function from the data-row number to an id. Which generated ids go unused is not observable.
- ExcelImport.ImportExcel: the store's counts are modelled as non-negative, because QString::number of a negative value is not modelled.
- StatsAggregation.UpdateStats: the counters `count` and `sum` (lines 339 and 343) are C++ `int`s; the model counts with unbounded integers, so overflow past 2^31-1 is not modelled.
