/** The store as a whole: named tables, their lifecycle, and the query
    engine's operations on a table named by the caller. Every operation
    re-reads the table it names; nothing is cached between calls. */
module Database {
  import opened Results
  import opened Values
  import opened Entries
  import opened Filter
  import opened Sheet
  import opened Query
  import opened Join

  /** The spreadsheet: its sheets by name. */
  type Db = map<string, Table>

  /** `getSheetByName` followed by the "does not exist" guard. */
  function Lookup(db: Db, name: string): Result<Table> {
    if name in db then Ok(db[name]) else Err(TableNotFound(name))
  }

  /** What the store keeps true of every table: a header row, and a grid as
      wide in every row as in the header row. */
  predicate WellFormed(db: Db) {
    forall n | n in db :: |db[n]| >= 1 && Rectangular(db[n])
  }

  function HeaderCells(hs: seq<string>): Row {
    seq(|hs|, i requires 0 <= i < |hs| => VStr(hs[i]))
  }

  /** createTable: refuses an existing name; otherwise a new sheet whose
      only row is the header row, so its headers read back as given. */
  function CreateTable(db: Db, name: string, headers: seq<string>): (r: Result<Db>)
    ensures r.Err? <==> name in db
    ensures r.Err? ==> r.error == TableAlreadyExists(name)
    ensures r.Ok? ==> r.value.Keys == db.Keys + {name} && forall n | n in db :: r.value[n] == db[n]
    ensures r.Ok? ==> Headers(r.value[name]) == headers && DataRows(r.value[name]) == []
    ensures r.Ok? && WellFormed(db) ==> WellFormed(r.value)
  {
    if name in db then Err(TableAlreadyExists(name))
    else
      var t := AppendRow([], HeaderCells(headers));
      AppendToEmpty(HeaderCells(headers));
      StoredDefined(HeaderCells(headers));
      Ok(db[name := t])
  }

  /** deleteTable: refuses a missing name; otherwise only that table goes. */
  function DeleteTable(db: Db, name: string): (r: Result<Db>)
    ensures r.Err? <==> name !in db
    ensures r.Err? ==> r.error == TableNotFound(name)
    ensures r.Ok? ==> r.value.Keys == db.Keys - {name} && forall n | n in r.value :: r.value[n] == db[n]
    ensures r.Ok? && WellFormed(db) ==> WellFormed(r.value)
  {
    var _ :- Lookup(db, name);
    Ok(db - {name})
  }

  /** renameTable: checks only that the old name exists. What the host does
      when the new name is taken is left open; this model chooses to let the
      moved table replace the other. */
  function RenameTable(db: Db, oldName: string, newName: string): (r: Result<Db>)
    ensures r.Err? <==> oldName !in db
    ensures r.Err? ==> r.error == TableNotFound(oldName)
    ensures r.Ok? ==> r.value.Keys == (db.Keys - {oldName}) + {newName}
    ensures r.Ok? ==> r.value[newName] == db[oldName]
    ensures r.Ok? ==> forall n | n in db && n != oldName && n != newName :: r.value[n] == db[n]
    ensures r.Ok? && WellFormed(db) ==> WellFormed(r.value)
  {
    var t :- Lookup(db, oldName);
    Ok((db - {oldName})[newName := t])
  }

  /** copyTable: refuses a missing source, then an existing destination;
      otherwise the destination is a copy of every row of the source. */
  function CopyTable(db: Db, source: string, destination: string): (r: Result<Db>)
    ensures source !in db ==> r == Err(TableNotFound(source))
    ensures source in db && destination in db ==> r == Err(TableAlreadyExists(destination))
    ensures r.Ok? <==> source in db && destination !in db
    ensures r.Ok? ==> r.value.Keys == db.Keys + {destination} && r.value[destination] == db[source]
    ensures r.Ok? ==> forall n | n in db :: r.value[n] == db[n]
    ensures r.Ok? && WellFormed(db) ==> WellFormed(r.value)
  {
    var t :- Lookup(db, source);
    if destination in db then Err(TableAlreadyExists(destination))
    else Ok(db[destination := t])
  }

  /** insertEntry: appends the values as one row, positionally, with no
      check of their number against the headers. */
  function InsertEntry(db: Db, name: string, data: Row): (r: Result<Db>)
    ensures r.Err? <==> name !in db
    ensures r.Err? ==> r.error == TableNotFound(name)
    ensures r.Ok? ==> r.value.Keys == db.Keys && forall n | n in db && n != name :: r.value[n] == db[n]
    ensures r.Ok? ==> |r.value[name]| == |db[name]| + 1
    ensures r.Ok? && WellFormed(db) ==> WellFormed(r.value)
  {
    var t :- Lookup(db, name);
    Ok(db[name := AppendRow(t, data)])
  }

  /** getHeaders: the header row's cells as stored. */
  function GetHeaders(db: Db, name: string): (r: Result<Row>)
    ensures r.Err? <==> name !in db
    ensures r.Ok? && |db[name]| > 0 ==> r.value == db[name][0]
    ensures r.Ok? ==> |r.value| == |Headers(db[name])|
  {
    var t :- Lookup(db, name);
    Ok(if |t| == 0 then [] else t[0])
  }

  /** countEntries: the last row's position minus the header row. */
  function CountEntries(db: Db, name: string): (r: Result<int>)
    ensures r.Err? <==> name !in db
    ensures r.Ok? && |db[name]| > 0 ==> r.value == |DataRows(db[name])|
  {
    var t :- Lookup(db, name);
    Ok(|t| - 1)
  }

  /** clearTable: every data row goes, the header row stays. */
  function ClearTable(db: Db, name: string): (r: Result<Db>)
    ensures r.Err? <==> name !in db
    ensures r.Ok? ==> r.value.Keys == db.Keys && forall n | n in db && n != name :: r.value[n] == db[n]
    ensures r.Ok? ==> DataRows(r.value[name]) == [] && HeaderPart(r.value[name]) == HeaderPart(db[name])
    ensures r.Ok? && WellFormed(db) ==> WellFormed(r.value)
  {
    var t :- Lookup(db, name);
    Ok(db[name := HeaderPart(t)])
  }

  /** getEntries: fails when the table is missing or the filter throws. */
  function GetEntries(db: Db, name: string, crit: Option<seq<Criterion>>, proj: Option<seq<string>>): (r: Result<seq<Entry>>)
    ensures name !in db ==> r == Err(TableNotFound(name))
    ensures name in db && crit.None? ==> r.Ok? && |r.value| == |DataRows(db[name])|
    ensures r.Ok? ==> |r.value| <= |DataRows(db[name])|
  {
    var t :- Lookup(db, name);
    SelectEntries(t, crit, proj)
  }

  /** deleteEntries: fails when the table is missing or the filter throws,
      and then the table is untouched. */
  function DeleteEntries(db: Db, name: string, crit: seq<Criterion>): (r: Result<Db>)
    ensures name !in db ==> r == Err(TableNotFound(name))
    ensures r.Ok? ==> r.value.Keys == db.Keys && forall n | n in db && n != name :: r.value[n] == db[n]
    ensures r.Ok? && WellFormed(db) ==> WellFormed(r.value)
  {
    var t :- Lookup(db, name);
    var t' :- DeleteMatching(t, crit);
    DeleteMatchingSpec(t, crit);
    UnmatchedRectangular(t, crit);
    Ok(db[name := t'])
  }

  /** Keeping the header row and a selection of the data rows keeps the
      grid rectangular. */
  lemma UnmatchedRectangular(t: Table, crit: seq<Criterion>)
    ensures |t| >= 1 ==> |HeaderPart(t) + Unmatched(Headers(t), DataRows(t), crit)| >= 1
    ensures Rectangular(t) ==> Rectangular(HeaderPart(t) + Unmatched(Headers(t), DataRows(t), crit))
  {
    var r := HeaderPart(t) + Unmatched(Headers(t), DataRows(t), crit);
    UnmatchedSpec(Headers(t), DataRows(t), crit);
    forall i | 0 <= i < |r| && Rectangular(t)
      ensures |r[i]| == Width(r)
    {
      if i > 0 {
        assert r[i] in Unmatched(Headers(t), DataRows(t), crit);
        assert r[i] in DataRows(t);
      }
    }
  }

  /** updateEntries: fails when the table is missing or the filter throws,
      and then nothing has been written. */
  function UpdateEntries(db: Db, name: string, crit: seq<Criterion>, u: Updates): (r: Result<Db>)
    requires name in db ==> Rectangular(db[name])
    ensures name !in db ==> r == Err(TableNotFound(name))
    ensures r.Ok? ==> r.value.Keys == db.Keys && forall n | n in db && n != name :: r.value[n] == db[n]
    ensures r.Ok? ==> |r.value[name]| == |db[name]| && HeaderPart(r.value[name]) == HeaderPart(db[name])
    ensures r.Ok? && WellFormed(db) ==> WellFormed(r.value)
  {
    var t :- Lookup(db, name);
    var applied := UpdateSheet(t, crit, u);
    if applied.failure.Some? then Err(applied.failure.value)
    else Ok(db[name := applied.sheet])
  }

  /** The per-table column list joinTables fetches when headers are given:
      the join key, then the table's qualified headers without qualifier. */
  function SideProjection(hs: Option<seq<string>>, table: string, key: string): Option<seq<string>> {
    if hs.Some? then Some([key] + SideColumns(hs.value, table)) else None
  }

  /** joinTables: the entries of the first table, each overlaid with its
      first match in the second, then projected onto the unqualified header
      names when headers are given. */
  function JoinTables(db: Db, left: string, right: string, key: string, hs: Option<seq<string>>): (r: Result<seq<Entry>>)
    ensures left !in db ==> r == Err(TableNotFound(left))
    ensures left in db && right !in db ==> r == Err(TableNotFound(right))
    ensures r.Ok? ==> |r.value| == |DataRows(db[left])|
  {
    var l :- GetEntries(db, left, None, SideProjection(hs, left, key));
    var rt :- GetEntries(db, right, None, SideProjection(hs, right, key));
    var joined := JoinEntries(l, rt, key);
    Ok(if hs.Some? then ProjectAll(joined, SelectedKeys(hs.value)) else joined)
  }

  /** Without filter or projection getEntries returns one entry per data
      row, in row order, each the materialised row; there are as many as
      countEntries reports. */
  lemma GetAllEntries(db: Db, name: string)
    requires WellFormed(db) && name in db
    ensures GetEntries(db, name, None, None) == Ok(EntriesOf(db[name]))
    ensures |GetEntries(db, name, None, None).value| == CountEntries(db, name).value
    ensures forall i | 0 <= i < |DataRows(db[name])| ::
              GetEntries(db, name, None, None).value[i] == Materialize(Headers(db[name]), db[name][i + 1])
  {
  }

  /** With a projection every returned entry has exactly the requested
      keys, each holding the value of the unprojected entry at the same
      place (undefined where that entry lacks the key). */
  lemma ProjectedEntries(db: Db, name: string, crit: Option<seq<Criterion>>, ks: seq<string>)
    requires GetEntries(db, name, crit, Some(ks)).Ok?
    ensures GetEntries(db, name, crit, None).Ok?
    ensures |GetEntries(db, name, crit, Some(ks)).value| == |GetEntries(db, name, crit, None).value|
    ensures forall i | 0 <= i < |GetEntries(db, name, crit, Some(ks)).value| ::
              var e := GetEntries(db, name, crit, Some(ks)).value[i];
              && e.Keys == (set j | 0 <= j < |ks| :: ks[j])
              && forall k | k in e :: e[k] == Get(GetEntries(db, name, crit, None).value[i], k)
  {
    var full := GetEntries(db, name, crit, None).value;
    forall i | 0 <= i < |full| {
      ProjectSpec(full[i], ks);
    }
  }

  /** The entries getEntries returns for a filter are exactly those at the
      positions deleteEntries removes for the same filter, in order; and
      one fails exactly when the other does. */
  lemma GetEntriesAtDeletedPositions(db: Db, name: string, crit: seq<Criterion>)
    requires name in db
    ensures MatchPositions(EntriesOf(db[name]), crit, 0).Ok? ==>
              GetEntries(db, name, Some(crit), None)
                == Ok(Pick(EntriesOf(db[name]), MatchPositions(EntriesOf(db[name]), crit, 0).value))
    ensures MatchPositions(EntriesOf(db[name]), crit, 0).Err? ==>
              GetEntries(db, name, Some(crit), None) == Err(MatchPositions(EntriesOf(db[name]), crit, 0).error)
  {
    var es := EntriesOf(db[name]);
    FilterPicksPositions(es, crit, 0);
    assert es[0..] == es;
  }

  /** deleteEntries leaves the header row followed by exactly the
      non-matching data rows in original order. It fails exactly when
      getEntries with the same filter fails, with the same error; otherwise
      the count drops by the number of entries that getEntries returned,
      and afterwards the filter selects nothing. */
  lemma DeleteEntriesSpec(db: Db, name: string, crit: seq<Criterion>)
    requires name in db
    ensures DeleteEntries(db, name, crit).Ok? <==> GetEntries(db, name, Some(crit), None).Ok?
    ensures DeleteEntries(db, name, crit).Err? ==>
              DeleteEntries(db, name, crit).error == GetEntries(db, name, Some(crit), None).error
    ensures DeleteEntries(db, name, crit).Ok? ==>
              DeleteEntries(db, name, crit).value[name]
                == HeaderPart(db[name]) + Unmatched(Headers(db[name]), DataRows(db[name]), crit)
    ensures DeleteEntries(db, name, crit).Ok? && |db[name]| > 0 ==>
              CountEntries(DeleteEntries(db, name, crit).value, name).value
                == CountEntries(db, name).value - |GetEntries(db, name, Some(crit), None).value|
    ensures DeleteEntries(db, name, crit).Ok? ==>
              GetEntries(DeleteEntries(db, name, crit).value, name, Some(crit), None) == Ok([])
  {
    var t := db[name];
    DeleteMatchingSpec(t, crit);
    if DeleteMatching(t, crit).Ok? {
      NothingLeftMatches(t, crit);
    }
  }

  /** updateEntries keeps the number of rows and the header row, leaves
      every non-matching row as it was and rewrites every matching one
      (matching judged on the rows as read before any write). It fails
      exactly when getEntries with the same filter fails. */
  lemma UpdateEntriesSpec(db: Db, name: string, crit: seq<Criterion>, u: Updates)
    requires name in db && Rectangular(db[name])
    ensures UpdateEntries(db, name, crit, u).Ok? <==> GetEntries(db, name, Some(crit), None).Ok?
    ensures UpdateEntries(db, name, crit, u).Ok? ==>
              forall i | 0 <= i < |DataRows(db[name])| ::
                DataRows(UpdateEntries(db, name, crit, u).value[name])[i]
                  == if Matches(EntriesOf(db[name])[i], crit) == Ok(true)
                     then Rewrite(DataRows(db[name])[i], Headers(db[name]), u)
                     else DataRows(db[name])[i]
  {
    UpdateSheetSpec(db[name], crit, u);
  }

  /** Re-reading after updateEntries: on every entry that matched, each key
      with a provided update value now holds that value, and every other key
      holds what it held before. */
  lemma UpdateEntriesReread(db: Db, name: string, crit: seq<Criterion>, u: Updates)
    requires name in db && Rectangular(db[name])
    requires UpdateEntries(db, name, crit, u).Ok?
    ensures forall i, k | 0 <= i < |EntriesOf(db[name])| && Matches(EntriesOf(db[name])[i], crit) == Ok(true)
                          && k in EntriesOf(db[name])[i] ::
              k in EntriesOf(UpdateEntries(db, name, crit, u).value[name])[i]
              && EntriesOf(UpdateEntries(db, name, crit, u).value[name])[i][k]
                   == if Provided(u, k) then u[k] else EntriesOf(db[name])[i][k]
  {
    UpdateSheetReread(db[name], crit, u);
  }

  /** insertEntry then getEntries: a row as wide as the header row comes
      back as one more entry, the materialised row, after all earlier ones. */
  lemma InsertThenGet(db: Db, name: string, data: Row)
    requires WellFormed(db) && name in db && |data| == Width(db[name])
    ensures InsertEntry(db, name, data).Ok?
    ensures GetEntries(InsertEntry(db, name, data).value, name, None, None)
              == Ok(GetEntries(db, name, None, None).value + [Materialize(Headers(db[name]), StoredRow(data))])
  {
    var t := db[name];
    AppendFullRow(t, data);
    EntriesOfAppend(t, StoredRow(data));
    assert InsertEntry(db, name, data).value[name] == t + [StoredRow(data)];
  }

  /** joinTables without headers: one entry per entry of the first table,
      in its order; an entry without a match in the second table stays as
      it is, otherwise it is overlaid with the first entry of the second
      table whose join-key value is strictly equal, that entry winning on
      shared keys. */
  lemma JoinTablesSpec(db: Db, left: string, right: string, key: string)
    requires left in db && right in db
    ensures JoinTables(db, left, right, key, None).Ok?
    ensures |JoinTables(db, left, right, key, None).value| == |EntriesOf(db[left])|
    ensures forall i | 0 <= i < |EntriesOf(db[left])| ::
              (forall j | 0 <= j < |EntriesOf(db[right])| ::
                 Get(EntriesOf(db[right])[j], key) != Get(EntriesOf(db[left])[i], key))
              ==> JoinTables(db, left, right, key, None).value[i] == EntriesOf(db[left])[i]
    ensures forall i, j | 0 <= i < |EntriesOf(db[left])| && 0 <= j < |EntriesOf(db[right])| ::
              Get(EntriesOf(db[right])[j], key) == Get(EntriesOf(db[left])[i], key)
              && (forall j' | 0 <= j' < j :: Get(EntriesOf(db[right])[j'], key) != Get(EntriesOf(db[left])[i], key))
              ==> JoinTables(db, left, right, key, None).value[i] == EntriesOf(db[left])[i] + EntriesOf(db[right])[j]
  {
    JoinEntriesSpec(EntriesOf(db[left]), EntriesOf(db[right]), key);
  }

  /** joinTables with headers: every joined entry has exactly the keys
      given by the headers' second pieces, so an unqualified header
      contributes the key "undefined". */
  lemma JoinProjectionKeys(db: Db, left: string, right: string, key: string, hs: seq<string>)
    requires JoinTables(db, left, right, key, Some(hs)).Ok?
    ensures forall e | e in JoinTables(db, left, right, key, Some(hs)).value ::
              e.Keys == set j | 0 <= j < |hs| :: PropertyKey(SecondPiece(hs[j]))
    ensures (exists j | 0 <= j < |hs| :: '.' !in hs[j]) ==>
              forall e | e in JoinTables(db, left, right, key, Some(hs)).value :: "undefined" in e
  {
    JoinedBeforeProjection(db, left, right, key, hs);
    var joined := JoinEntries(SideEntries(db, left, hs, key), SideEntries(db, right, hs, key), key);
    var ks := SelectedKeys(hs);
    ProjectAllKeys(joined, ks);
    SelectedKeysSet(hs);
    if exists j | 0 <= j < |hs| :: '.' !in hs[j] {
      var j :| 0 <= j < |hs| && '.' !in hs[j];
      UnqualifiedKey(hs[j]);
      assert ks[j] == "undefined";
    }
  }

  /** The entries joinTables fetches from one table when headers are given:
      each data row's entry narrowed to the join key and the columns the
      headers ask of that table. */
  function SideEntries(db: Db, name: string, hs: seq<string>, key: string): (r: seq<Entry>)
    requires name in db
    ensures |r| == |DataRows(db[name])|
  {
    GetEntries(db, name, None, SideProjection(Some(hs), name, key)).value
  }

  /** With headers, the join result is the join of the two narrowed entry
      lists, projected onto the headers' second pieces. */
  lemma JoinedBeforeProjection(db: Db, left: string, right: string, key: string, hs: seq<string>)
    requires left in db && right in db
    ensures JoinTables(db, left, right, key, Some(hs))
            == Ok(ProjectAll(JoinEntries(SideEntries(db, left, hs, key), SideEntries(db, right, hs, key), key),
                             SelectedKeys(hs)))
  {
  }

  /** A narrowed entry holds the row's value under the join key and under
      every column the headers ask of its table, and nothing else. */
  lemma SideEntryValues(db: Db, name: string, hs: seq<string>, key: string, i: nat)
    requires name in db && i < |DataRows(db[name])|
    ensures |EntriesOf(db[name])| == |DataRows(db[name])|
    ensures forall k :: Get(SideEntries(db, name, hs, key)[i], k)
                        == if k in [key] + SideColumns(hs, name) then Get(EntriesOf(db[name])[i], k) else VNone
  {
    var ks := [key] + SideColumns(hs, name);
    var e := EntriesOf(db[name])[i];
    assert SideEntries(db, name, hs, key)[i] == Project(e, ks);
    ProjectSpec(e, ks);
    forall k
      ensures Get(Project(e, ks), k) == if k in ks then Get(e, k) else VNone
    {
      if k in ks {
        var j :| 0 <= j < |ks| && ks[j] == k;
      }
    }
  }

  /** joinTables with headers, on an entry of the first table that has no
      match in the second: every selected key holds the first table's value
      when that table supplies the column (or it is the join key), and
      undefined otherwise, in particular for a column of the second table. */
  lemma JoinUnmatchedValues(db: Db, left: string, right: string, key: string, hs: seq<string>, i: nat)
    requires left in db && right in db && i < |DataRows(db[left])|
    requires forall j | 0 <= j < |DataRows(db[right])| ::
               Get(SideEntries(db, right, hs, key)[j], key) != Get(SideEntries(db, left, hs, key)[i], key)
    ensures JoinTables(db, left, right, key, Some(hs)).Ok?
    ensures i < |JoinTables(db, left, right, key, Some(hs)).value| && |EntriesOf(db[left])| == |DataRows(db[left])|
    ensures forall k | k in SelectedKeys(hs) ::
              Get(JoinTables(db, left, right, key, Some(hs)).value[i], k)
                == if k in [key] + SideColumns(hs, left) then Get(EntriesOf(db[left])[i], k) else VNone
  {
    var l := SideEntries(db, left, hs, key);
    var rt := SideEntries(db, right, hs, key);
    var ks := SelectedKeys(hs);
    JoinedBeforeProjection(db, left, right, key, hs);
    JoinEntriesSpec(l, rt, key);
    assert JoinEntries(l, rt, key)[i] == l[i];
    var out := JoinTables(db, left, right, key, Some(hs)).value;
    assert out[i] == Project(l[i], ks);
    ProjectSpec(l[i], ks);
    SideEntryValues(db, left, hs, key, i);
    forall k | k in ks
      ensures Get(out[i], k) == Get(l[i], k)
    {
      var j :| 0 <= j < |ks| && ks[j] == k;
      assert k in out[i];
    }
  }

  /** A narrowed entry has exactly the join key and the columns the headers
      ask of its table as keys, each holding the row's value. */
  lemma SideEntryKeys(db: Db, name: string, hs: seq<string>, key: string, i: nat, k: string)
    requires name in db && i < |DataRows(db[name])|
    ensures |EntriesOf(db[name])| == |DataRows(db[name])|
    ensures k in SideEntries(db, name, hs, key)[i] <==> k in [key] + SideColumns(hs, name)
    ensures k in SideEntries(db, name, hs, key)[i] ==>
              SideEntries(db, name, hs, key)[i][k] == Get(EntriesOf(db[name])[i], k)
  {
    var ks := [key] + SideColumns(hs, name);
    var e := EntriesOf(db[name])[i];
    assert SideEntries(db, name, hs, key)[i] == Project(e, ks);
    ProjectSpec(e, ks);
    if k in ks {
      var n :| 0 <= n < |ks| && ks[n] == k;
    }
  }

  /** With headers, a left entry whose first match is entry j of the right
      side joins into the projection of the one overlaid with the other. */
  lemma JoinMatchedEntry(db: Db, left: string, right: string, key: string, hs: seq<string>, i: nat, j: nat)
    requires left in db && right in db && i < |DataRows(db[left])| && j < |DataRows(db[right])|
    requires Get(SideEntries(db, right, hs, key)[j], key) == Get(SideEntries(db, left, hs, key)[i], key)
    requires forall j' | 0 <= j' < j ::
               Get(SideEntries(db, right, hs, key)[j'], key) != Get(SideEntries(db, left, hs, key)[i], key)
    ensures JoinTables(db, left, right, key, Some(hs)).Ok?
    ensures i < |JoinTables(db, left, right, key, Some(hs)).value|
    ensures JoinTables(db, left, right, key, Some(hs)).value[i]
            == Project(SideEntries(db, left, hs, key)[i] + SideEntries(db, right, hs, key)[j], SelectedKeys(hs))
  {
    var l := SideEntries(db, left, hs, key);
    var rt := SideEntries(db, right, hs, key);
    JoinedBeforeProjection(db, left, right, key, hs);
    JoinEntriesSpec(l, rt, key);
    assert JoinEntries(l, rt, key)[i] == l[i] + rt[j];
  }

  /** joinTables with headers, on an entry of the first table whose first
      match is entry j of the second: a selected key holds the second
      table's value when that table supplies the column (or it is the join
      key), else the first table's value when that one supplies it, and
      undefined otherwise. */
  lemma JoinMatchedValues(db: Db, left: string, right: string, key: string, hs: seq<string>, i: nat, j: nat)
    requires left in db && right in db && i < |DataRows(db[left])| && j < |DataRows(db[right])|
    requires Get(SideEntries(db, right, hs, key)[j], key) == Get(SideEntries(db, left, hs, key)[i], key)
    requires forall j' | 0 <= j' < j ::
               Get(SideEntries(db, right, hs, key)[j'], key) != Get(SideEntries(db, left, hs, key)[i], key)
    ensures JoinTables(db, left, right, key, Some(hs)).Ok?
    ensures i < |JoinTables(db, left, right, key, Some(hs)).value|
    ensures |EntriesOf(db[left])| == |DataRows(db[left])| && |EntriesOf(db[right])| == |DataRows(db[right])|
    ensures forall k | k in SelectedKeys(hs) ::
              Get(JoinTables(db, left, right, key, Some(hs)).value[i], k)
                == if k in [key] + SideColumns(hs, right) then Get(EntriesOf(db[right])[j], k)
                   else if k in SideColumns(hs, left) then Get(EntriesOf(db[left])[i], k)
                   else VNone
  {
    var l := SideEntries(db, left, hs, key);
    var rt := SideEntries(db, right, hs, key);
    var ks := SelectedKeys(hs);
    JoinMatchedEntry(db, left, right, key, hs, i, j);
    SideEntryValues(db, left, hs, key, i);
    forall k | k in ks
      ensures Get(Project(l[i] + rt[j], ks), k)
              == if k in [key] + SideColumns(hs, right) then Get(EntriesOf(db[right])[j], k)
                 else if k in SideColumns(hs, left) then Get(EntriesOf(db[left])[i], k)
                 else VNone
    {
      ProjectOverlay(l[i], rt[j], ks, k);
      SideEntryKeys(db, right, hs, key, j, k);
    }
  }
}
