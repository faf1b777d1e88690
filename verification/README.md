# SSaaDB in Dafny

SSaaDB presents a spreadsheet as a small relational store. Each sheet is a
table. Its first row holds the column headers and every row after it is one
entry. The class offers the table lifecycle (create, delete, rename, copy),
inserting a row, and a query engine over the rows:

- `getEntries` filters rows and projects them onto columns;
- `deleteEntries` and `updateEntries` act on the rows a filter selects;
- `joinTables` joins two tables on a key;
- `getHeaders` and `countEntries` report on a table;
- `clearTable` empties a table.

A filter is an object from column names to `{ operator, value }`. The
private `matchesFilter` evaluates it against an entry.

This project models that core on pure values:

- The spreadsheet is a map from table names to grids. A grid is the
  sequence of rows `getDataRange().getValues()` returns.
- An entry is a map from header names to cell values.
- Every operation that can throw returns a `Result`. Its error is
  `TableNotFound`, `TableAlreadyExists` or `InvalidOperator`, which are
  the three messages the class throws.

The files are:

- `results.dfy`: `Option` and `Result`, and the store's errors.
- `values.dfy`: cell values; their conversion to property keys (JavaScript
  `String`); the JavaScript relational comparison on the modelled kinds.
- `entries.dfy`: building an entry from a row (the `headers.reduce` fold),
  and projecting an entry onto keys.
- `filter.dfy`: criteria, the operator switch, and `matchesFilter` as an
  in-order, short-circuiting `every`.
- `sheet.dfy`: the grid and the host primitives the engine calls:
  `deleteRow`, a one-cell `setValue` and `appendRow`.
- `query.dfy`: the engine on one grid.
  - Filtering.
  - The `index + 2` positions `deleteEntries` computes, and their deletion
    from the largest down.
  - The `forEach` of `updateEntries`, which writes cell by cell and stops
    at the first throw.
  - Selection with projection.
- `join.dfy`: `split('.')`, the qualified-header handling, the first-match
  lookup and the `{ ...left, ...right }` overlay.
- `database.dfy`: the operations on the store by table name, and the
  properties that relate them.
- `scenario.dfy`: the walk-through in `src/tests.ts`, step by step, on
  concrete tables.

Three behaviours of the code are worth stating plainly:

- **`in` and `not in`.** Both are false when the criterion's value is not
  an array, so `not in` is not the negation of `in` (`InNotIn`).
- **The join.** The doc comment of `joinTables` (src/SSaaDB.ts:221) calls
  it an inner join. The code keeps an unmatched left row unchanged and
  uses only the first match on the right (`JoinEntriesSpec`), so no row is
  ever dropped or duplicated.
- **Updates.** `updateEntries` skips a header whose update value is
  `undefined`, so such a column is never written (`Provided`).

## Model

`Query.UpdateFromOk`, `Query.UpdateFromRows`, `Query.UpdateFromFirstError`
and `Query.UpdateFromUntouched` are the clauses of `Query.UpdateFromSpec`,
each proved on its own to keep the proof small; their rows repeat parts of
that one.

| member | source | states |
|---|---|---|
| `Filter.ParseOp` | src/SSaaDB.ts:306-325 | The operator switch recognises exactly the eight operator names and keeps the text of any other operator. |
| `Filter.ParseOpName` | src/SSaaDB.ts:306-322 | Each recognised operator is reached from its own name. |
| `Filter.Eval` | src/SSaaDB.ts:305-325 | An operator other than the eight throws "Invalid operator" carrying its text. `==` and `!=` are strict (in)equality with `entry[key]`, a missing key reading as undefined and never equal to an array. `<` and `>` hold only of comparable values in that order; `<=` and `>=` hold when the values are comparable and the strict order fails the other way. `in` and `not in` are false unless the value is an array, and then test membership. |
| `Filter.MatchesSpec` | src/SSaaDB.ts:303-327 | The filter holds iff every criterion holds. Otherwise its outcome is that of the first criterion that does not hold, which is false or the error, and every earlier criterion held. |
| `Filter.MatchesEmpty` | src/SSaaDB.ts:303-304 | An empty filter holds of every entry and never throws. |
| `Filter.MatchesAppend` | src/SSaaDB.ts:304-326 | Criteria combine in order: a split filter is its first half, then its second half only if the first held. |
| `Filter.ShortCircuit` | src/SSaaDB.ts:304-326 | A false criterion makes the filter false even if a later criterion has an invalid operator. |
| `Filter.MatchMeansNoError` | src/SSaaDB.ts:304-326 | If any entry satisfies a filter, that filter throws on no entry. |
| `Filter.InNotIn` | src/SSaaDB.ts:319-322 | `in` holds iff the value is an array that contains the cell. `not in` holds iff the value is an array that does not contain it. For a non-array value, neither holds. |
| `Filter.IntOrderings` | src/SSaaDB.ts:311-318 | On two integers `>`, `>=`, `<` and `<=` are the integer orderings. |
| `Filter.StringOrderings` | src/SSaaDB.ts:311-318 | On two strings exactly one of `<`, `==` and `>` holds. `<=` is `<` or `==`, and `>=` is `>` or `==`. |
| `Filter.UndefinedOrderings` | src/SSaaDB.ts:311-318 | If either side is undefined, all four orderings are false. |
| `Values.StrLessTransitive` | src/SSaaDB.ts:311-318 | The string order used by the ordering operators is transitive. |
| `Values.StrLessTotal` | src/SSaaDB.ts:311-318 | Any two distinct strings are ordered one way or the other. |
| `Values.StrLessAsymmetric` | src/SSaaDB.ts:311-318 | If one string is less than another, the second is not less than the first. |
| `Values.StrLessIrreflexive` | src/SSaaDB.ts:311-318 | No string is less than itself. |
| `Entries.MaterializeSpec` | src/SSaaDB.ts:197-202 | An entry built from a row has exactly the header names as keys. A repeated header takes the cell at its last position, and a row shorter than the headers gives undefined. |
| `Entries.MaterializeKeys` | src/SSaaDB.ts:197-202 | The keys of an entry built from a row are exactly the header names. |
| `Entries.MaterializeValues` | src/SSaaDB.ts:197-202 | At the last position of each header name, the entry holds that position's cell, or undefined past the end of the row. |
| `Entries.MaterializeGet` | src/SSaaDB.ts:198-201 | Every header name is a key of the entry and holds the cell under the last header with that name. |
| `Entries.UnzipMaterialize` | src/SSaaDB.ts:197-202 | With distinct headers and a full-width row, reading the entry back in header order gives the row again. |
| `Entries.ProjectSpec` | src/SSaaDB.ts:208-215 | A projection has exactly the requested keys. Each key holds the source entry's value, or undefined if the source lacks it. |
| `Sheet.DeleteRow` | src/SSaaDB.ts:144 | Deleting position p removes that row. Rows above it keep their positions and rows below move up by one. |
| `Sheet.SetCell` | src/SSaaDB.ts:173 | Writing one cell changes that cell only. |
| `Sheet.AppendRow` | src/SSaaDB.ts:111 | The row is added after all others, with its values in order and an undefined value kept as an empty cell, so the new row reads back with no undefined. The grid stays rectangular: cells widened from either side read as empty strings. |
| `Sheet.AppendFullRow` | src/SSaaDB.ts:111 | Appending a row exactly as wide as the grid adds that row, undefined values as empty cells, and changes nothing else. |
| `Query.FilterEntriesSpec` | src/SSaaDB.ts:204-206 | The filter throws iff it throws on some entry, and the error is that of the first entry where it throws. On success the result holds every matching entry and nothing else. |
| `Query.MatchPositions` | src/SSaaDB.ts:129-140 | Every position collected from entry k on lies between k + 2 and the last data row's position. |
| `Query.MatchPositionsSpec` | src/SSaaDB.ts:129-140 | The reduce of `deleteEntries` collects, in strictly increasing order, the position `index + 2` of each data row that matches, and no other position. It throws at the first row that throws. |
| `Query.FilterPicksPositions` | src/SSaaDB.ts:126-140 | The entries `getEntries` selects are exactly the entries at the positions `deleteEntries` computes, in the same order. When it fails, it fails with the same error. |
| `Query.DeletablePositions` | src/SSaaDB.ts:129-140 | Every computed position is a data row of the grid: at least 2, at most the row count. |
| `Query.DeleteDescending` | src/SSaaDB.ts:143-145 | Deleting the positions from the last one down removes one row per position. |
| `Query.KeptAfterDelete` | src/SSaaDB.ts:143-145 | Deleting the largest pending position first does not shift any smaller one. |
| `Query.DeleteDescendingKeeps` | src/SSaaDB.ts:143-145 | Deleting in descending order leaves exactly the rows whose positions were not computed, in their original order. |
| `Query.UnmatchedSpec` | src/SSaaDB.ts:129-145 | The rows kept by a deletion are rows of the grid, and none of them matches. |
| `Query.UnmatchedAreFalse` | src/SSaaDB.ts:129-145 | Where the filter throws on no row, it is false on every row a deletion keeps. |
| `Query.KeptIsUnmatched` | src/SSaaDB.ts:129-140 | Given positions that are exactly those of matching rows, the rows kept are the rows that do not match. |
| `Query.DeleteMatchingSpec` | src/SSaaDB.ts:126-145 | `deleteEntries` on a grid keeps the header row and then exactly the non-matching data rows, in order. The grid shrinks by the number of entries `getEntries` returns for the same filter, and deletion fails iff that call fails, with the same error. |
| `Query.EntriesOfAppend` | src/SSaaDB.ts:111 | The entries of a grid grown by one row are the old entries followed by the new row's entry. |
| `Query.NothingLeftMatches` | src/SSaaDB.ts:126-145 | After a deletion the same filter selects no entry and does not throw. |
| `Query.WriteCells` | src/SSaaDB.ts:171-175 | The `headers.forEach` on one row writes each column whose header has a defined update value, and writes nothing else. |
| `Query.UpdateFrom` | src/SSaaDB.ts:164-177 | The `forEach` keeps the grid's row count and every row's width, and never touches the rows it has already passed. |
| `Query.LoopStep` | src/SSaaDB.ts:164-175 | One step of the `forEach` keeps the rows still to be visited as they were read, and a written row is the read row rewritten. |
| `Query.UpdateFromSpec` | src/SSaaDB.ts:164-177 | The `forEach` of `updateEntries` rewrites every matching row and leaves the others. Matching is judged on the rows as read before any write. It stops at the first row where the filter throws, and then nothing has been written. |
| `Query.UpdateFromOk` | src/SSaaDB.ts:164-177 | The `forEach` runs to the end iff the filter throws on no row. |
| `Query.UpdateFromRows` | src/SSaaDB.ts:164-177 | A `forEach` that runs to the end leaves every matching row rewritten and every other row as read. |
| `Query.UpdateFromFirstError` | src/SSaaDB.ts:164-177 | An aborted `forEach` reports the error of the first row on which the filter throws. |
| `Query.UpdateFromUntouched` | src/SSaaDB.ts:164-177 | An aborted `forEach` has written nothing: a filter that throws on one row matches no row. |
| `Query.UpdateSheet` | src/SSaaDB.ts:161-177 | An update keeps the grid's size, its shape and its header row. A failed update leaves the grid as it was. |
| `Query.UpdateSheetSpec` | src/SSaaDB.ts:161-177 | An update fails iff `getEntries` with the same filter fails. On success each data row is rewritten if it matched and left alone otherwise. |
| `Query.RewriteEntry` | src/SSaaDB.ts:171-175 | On a rewritten row, a key with a defined update value holds that value, and every other key keeps its old value. |
| `Query.UpdateSheetReread` | src/SSaaDB.ts:164-177 | Re-reading after an update: on every matched entry, each key with a defined update value holds that value, and every other key keeps its old value. |
| `Query.ProjectAllKeys` | src/SSaaDB.ts:208-215 | Every projected entry has exactly the requested keys. |
| `Query.SelectEntries` | src/SSaaDB.ts:194-217 | Selection can fail only when a filter is given. Without a filter it returns one entry per data row, and it never returns more. |
| `Join.Split` | src/SSaaDB.ts:242 | `split('.')` gives dot-free pieces that join back into the string. There is more than one piece iff the string contains a dot. |
| `Join.SplitJoinDots` | src/SSaaDB.ts:242 | Splitting dot-free pieces joined by dots gives the pieces back. |
| `Join.FirstDotAt` | src/SSaaDB.ts:242 | A dot with no dot before it is where `split` cuts first. |
| `Join.SecondPieceOfQualified` | src/SSaaDB.ts:242 | The second piece of `table.column`, where neither part has a dot, is the column. |
| `Join.UnqualifiedKey` | src/SSaaDB.ts:242-246 | A header with no dot has no second piece, so it projects onto the key "undefined". |
| `Join.SideColumns` | src/SSaaDB.ts:230 | The columns requested of one table are the second pieces of exactly the headers that start with the table name followed by a dot. |
| `Join.FindFirst` | src/SSaaDB.ts:237 | `find` returns nothing iff no entry's key value is strictly equal to the left value. Otherwise it returns the first entry whose key value is equal. |
| `Join.JoinEntriesSpec` | src/SSaaDB.ts:236-239 | There is one joined entry per left entry, in order. A left entry with no match is unchanged. Otherwise it is overlaid with its first match, and the right side wins on shared keys. The join key keeps the left value. |
| `Database.CreateTable` | src/SSaaDB.ts:29-37 | Creation fails iff the name is taken. Otherwise it adds a table whose headers read back as given and which has no entries. Nothing else changes. |
| `Database.DeleteTable` | src/SSaaDB.ts:44-51 | Deletion fails iff the table is missing. Otherwise exactly that table goes. |
| `Database.RenameTable` | src/SSaaDB.ts:69-76 | Renaming fails iff the old name is missing. Otherwise the table moves to the new name and every other table stays as it was. The model lets it replace a table already holding that name (see below). |
| `Database.CopyTable` | src/SSaaDB.ts:84-97 | Copying fails for a missing source, then for a taken destination. Otherwise the destination becomes a copy of the source. |
| `Database.InsertEntry` | src/SSaaDB.ts:105-112 | Insertion fails iff the table is missing. Otherwise the table grows by one row, other tables are untouched, and the store stays well formed. |
| `Database.GetHeaders` | src/SSaaDB.ts:260-268 | The result is the stored header row; it fails iff the table is missing. |
| `Database.CountEntries` | src/SSaaDB.ts:276-284 | The count is the number of data rows; it fails iff the table is missing. |
| `Database.ClearTable` | src/SSaaDB.ts:291-301 | Clearing removes every data row and keeps the header row; it fails iff the table is missing. |
| `Database.GetEntries` | src/SSaaDB.ts:188-218 | A missing table fails with TableNotFound. With no filter there is one entry per data row. |
| `Database.DeleteEntries` | src/SSaaDB.ts:120-146 | A missing table fails with TableNotFound. Other tables are untouched and the store stays well formed. |
| `Database.UnmatchedRectangular` | src/SSaaDB.ts:143-145 | Keeping the header row and the unmatched data rows keeps the header row and the grid's rectangular shape. |
| `Database.UpdateEntries` | src/SSaaDB.ts:155-178 | A missing table fails with TableNotFound. The row count and header row are kept, and other tables are untouched. |
| `Database.JoinTables` | src/SSaaDB.ts:228-252 | A missing first table fails before a missing second one. There is one result per entry of the first table. |
| `Database.GetAllEntries` | src/SSaaDB.ts:194-202 | Without a filter, `getEntries` returns the materialised data rows in order, as many as `countEntries` reports. |
| `Database.ProjectedEntries` | src/SSaaDB.ts:208-215 | With a projection, each entry has exactly the requested keys. Each key holds the value of the unprojected entry at the same place. |
| `Database.GetEntriesAtDeletedPositions` | src/SSaaDB.ts:126-140 | `getEntries` with a filter returns the entries at exactly the positions `deleteEntries` removes for that filter, or fails with the same error. |
| `Database.DeleteEntriesSpec` | src/SSaaDB.ts:120-146 | `deleteEntries` fails iff `getEntries` with the same filter fails, and with the same error. Otherwise the table is its header row followed by the non-matching rows in order. The count drops by the number of entries `getEntries` returned, and afterwards the filter selects nothing. |
| `Database.UpdateEntriesSpec` | src/SSaaDB.ts:155-178 | `updateEntries` fails iff `getEntries` with the same filter fails. On success each data row is rewritten if it matched and unchanged otherwise. |
| `Database.UpdateEntriesReread` | src/SSaaDB.ts:164-177 | After an update, each matched entry read back holds the defined update values and keeps all other values. |
| `Database.InsertThenGet` | src/SSaaDB.ts:105-112 | Inserting a row as wide as the header row and then reading the table gives the old entries followed by the new row's entry, with "" wherever the row held undefined. |
| `Database.JoinTablesSpec` | src/SSaaDB.ts:228-239 | Without headers, the join has one entry per entry of the first table. An entry with no match is unchanged. Otherwise it is overlaid with its first match, and the right side wins. |
| `Database.JoinProjectionKeys` | src/SSaaDB.ts:241-249 | With headers, each joined entry has exactly the keys `split('.')[1]` of those headers. An unqualified header adds the key "undefined". |
| `Database.JoinMatchedValues` | src/SSaaDB.ts:228-249 | With headers, a left entry whose first match is right entry j: a selected key holds the right value when the right table supplies the column or it is the join key, else the left value when the left table supplies it, else undefined. |
| `Database.SideEntryValues` | src/SSaaDB.ts:229-234 | A narrowed entry holds the row's value under the join key and each column requested of its table, and undefined under every other key. |
| `Database.JoinUnmatchedValues` | src/SSaaDB.ts:228-249 | With headers, a left entry with no match keeps the left value under the join key and under the left table's requested columns. Every other selected key, a right table's column among them, reads as undefined. |
| `Scenario.CreateSteps` | src/tests.ts:5-6 | Both creates succeed on the empty store, each adding a table that holds only its header row. |
| `Scenario.InsertJohn` | src/tests.ts:12 | Inserting John appends his row to TestTable1. |
| `Scenario.InsertAlice` | src/tests.ts:13 | Inserting Alice appends her row after John's. |
| `Scenario.InsertNewYork` | src/tests.ts:14 | Inserting New York appends its row to TestTable2. |
| `Scenario.InsertLondon` | src/tests.ts:15 | Inserting London appends its row after New York's. |
| `Scenario.SetupSteps` | src/tests.ts:5-15 | Creating the two tables and inserting the four rows succeeds and yields the two filled tables. |
| `Scenario.PersonEntry` | src/tests.ts:18-19 | An entry of TestTable1 maps ID, Name and Age to the row's three cells. |
| `Scenario.IdFilter` | src/tests.ts:24 | The filter on ID 1 holds exactly of an entry whose ID is strictly equal to 1, and never throws. |
| `Scenario.GetStep` | src/tests.ts:17-21 | Reading TestTable1 gives two entries, and the first is ID 1, John, 25. |
| `Scenario.JohnRewritten` | src/tests.ts:24 | John's row with Age set to 26 is ID 1, John, 26. |
| `Scenario.UpdatedRows` | src/tests.ts:24 | The update succeeds, and the data rows become John at 26 followed by Alice unchanged. |
| `Scenario.UpdateApplied` | src/tests.ts:24 | The update rewrites John's row only. |
| `Scenario.UpdatedReadBack` | src/tests.ts:25 | Reading ID 1 back gives exactly John's updated entry. |
| `Scenario.UpdateStep` | src/tests.ts:23-28 | Setting Age to 26 where ID is 1 rewrites John's row only. Reading ID 1 back gives one entry, with Age 26. |
| `Scenario.DeletedPeople` | src/tests.ts:31 | Deleting ID 1 leaves only Alice's row under the header row. |
| `Scenario.DeleteStep` | src/tests.ts:30-35 | After the delete, TestTable1 has one entry and TestTable2 is unchanged. |
| `Scenario.JoinedAlice` | src/tests.ts:38 | The join gives one entry: Alice's entry overlaid with London's. |
| `Scenario.JoinStep` | src/tests.ts:37-41 | Joining on ID gives one entry: ID 2, Alice, London. |
| `Scenario.HeadersStep` | src/tests.ts:43-47 | The headers of TestTable1 read back as ID, Name, Age. |
| `Scenario.CountStep` | src/tests.ts:49-53 | One entry is counted. |
| `Scenario.ClearStep` | src/tests.ts:55-60 | After clearing, TestTable1 has no entries. |
| `Scenario.DropStep` | src/tests.ts:62-67 | Deleting both tables leaves an empty store. |

## Left out

- Host plumbing is not modelled. This covers opening the spreadsheet by
  its ID, the constructor, `SSaaDBError` as a class, and `console.log`.
  Each sheet is only its grid of values.
- `getTables` is left out. It returns the sheets in the host's tab order,
  which a map of tables does not have.
- Cell values cover only undefined, strings, integers and booleans. Not
  modelled:
  - floating-point numbers, NaN and dates;
  - string-to-number coercion in `<`, `>` and the other orderings (a
    string compared with a number or boolean is treated as
    incomparable, i.e. every ordering is false);
  - arrays as operands of an ordering.
- `Sheet.AppendRow` (and `Sheet.SetCell`): a written value is stored as
  given, apart from undefined becoming an empty cell. The host does three
  things the model does not:
  - it parses written strings as typed input, so "007" reads back as 7,
    "TRUE" as true (a header "TRUE" becomes the key "true"), and a string
    starting with "=" becomes a formula;
  - a row with no content at the bottom of the sheet lies outside the data
    range and is not counted by `getLastRow`, and empty trailing header
    cells do not widen the range. This covers inserting a row of undefined
    or "" values and an update that blanks the last row;
  - a number is a double, exact only up to 2^53, and large ones print in
    exponent form ("1e+21") where `KeyOf` writes every digit.

  So `Database.CreateTable` (headers read back as given),
  `Database.InsertThenGet`, `Database.UpdateEntriesReread` and the row
  counts after an insert or update hold only for values the host keeps as
  they are: text that does not parse as a number, boolean or formula,
  integers within 2^53, and rows with some content.
- Strings are compared as sequences of characters. JavaScript compares
  UTF-16 code units; the two orders differ only outside the Basic
  Multilingual Plane.
- A filter is a sequence of criteria in key-enumeration order.
  `Object.keys` puts integer-like keys first; that reordering is left to
  whoever builds the sequence.
- Object keys are plain strings. Keys that touch the prototype, such as
  `__proto__`, are not modelled.
- `Database.ClearTable`: modelled as removing the data rows. On the host,
  `getRange(2, 1, 0, n)` refuses a table with no data rows. That error is
  host behaviour and is not modelled.
- `Database.UpdateEntries`: requires a rectangular grid. This is always
  the shape `getValues` returns, and it is what keeps the column index of
  every header inside every row.
- `Database.RenameTable`: `renameTable` does not check whether the new name
  is taken, and what `setName` then does is up to the host. Replacing the
  table of that name is the model's own choice, not the host's behaviour.
- The walk-through in `src/tests.ts` calls `joinInner`, which the class
  does not define. `Scenario.JoinStep` states the step with `joinTables`.
- A sheet with no rows at all is read as having no headers and no entries.
  The store never creates one: every table starts with its header row.
