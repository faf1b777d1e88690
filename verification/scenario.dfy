/** The repository's end-to-end walk through the store, step by step: two
    tables, two people and two cities, an update, a delete, a join, the
    header and count queries, a clear and the removal of both tables. Each
    step is stated on the state the previous step leaves. */
module Scenario {
  import opened Results
  import opened Values
  import opened Entries
  import opened Filter
  import opened Sheet
  import opened Query
  import opened Database

  const People := "TestTable1"
  const Cities := "TestTable2"

  function PeopleHeaders(): seq<string> { ["ID", "Name", "Age"] }
  function CityHeaders(): seq<string> { ["ID", "City"] }

  function John(): Row { [VInt(1), VStr("John"), VInt(25)] }
  function Alice(): Row { [VInt(2), VStr("Alice"), VInt(30)] }
  function NewYork(): Row { [VInt(1), VStr("New York")] }
  function London(): Row { [VInt(2), VStr("London")] }

  /** The filter ID == n. */
  function IdIs(n: int): seq<Criterion> { [Criterion("ID", "==", Scalar(VInt(n)))] }

  /** The update that sets Age to 26. */
  function AgeTo26(): Updates { map["Age" := VInt(26)] }

  /** The store right after both tables are created. */
  function Created(): Db {
    map[People := [HeaderCells(PeopleHeaders())], Cities := [HeaderCells(CityHeaders())]]
  }

  /** The store after each of the four inserts. */
  function WithJohn(): Db { Created()[People := [HeaderCells(PeopleHeaders()), John()]] }
  function WithPeople(): Db { Created()[People := [HeaderCells(PeopleHeaders()), John(), Alice()]] }
  function WithNewYork(): Db { WithPeople()[Cities := [HeaderCells(CityHeaders()), NewYork()]] }
  function Seeded(): Db { WithPeople()[Cities := [HeaderCells(CityHeaders()), NewYork(), London()]] }

  /** Both creates succeed on the empty store, each adding a header-only sheet. */
  lemma CreateSteps()
    ensures CreateTable(map[], People, PeopleHeaders()) == Ok(map[People := [HeaderCells(PeopleHeaders())]])
    ensures CreateTable(map[People := [HeaderCells(PeopleHeaders())]], Cities, CityHeaders()) == Ok(Created())
  {
    AppendToEmpty(HeaderCells(PeopleHeaders()));
    StoredDefined(HeaderCells(PeopleHeaders()));
    AppendToEmpty(HeaderCells(CityHeaders()));
    StoredDefined(HeaderCells(CityHeaders()));
  }

  /** Inserting a row as wide as the table appends exactly that row. */
  lemma InsertFull(db: Db, name: string, row: Row)
    requires name in db && |db[name]| > 0 && Rectangular(db[name]) && |row| == Width(db[name])
    requires Defined(row)
    ensures InsertEntry(db, name, row) == Ok(db[name := db[name] + [row]])
  {
    AppendFullRow(db[name], row);
    StoredDefined(row);
  }

  lemma InsertJohn()
    ensures InsertEntry(Created(), People, John()) == Ok(WithJohn())
  {
    InsertFull(Created(), People, John());
    assert [HeaderCells(PeopleHeaders())] + [John()] == [HeaderCells(PeopleHeaders()), John()];
  }

  lemma InsertAlice()
    ensures InsertEntry(WithJohn(), People, Alice()) == Ok(WithPeople())
  {
    var h := HeaderCells(PeopleHeaders());
    InsertFull(WithJohn(), People, Alice());
    assert [h, John()] + [Alice()] == [h, John(), Alice()];
    assert WithJohn()[People := [h, John(), Alice()]] == WithPeople();
  }

  lemma InsertNewYork()
    ensures InsertEntry(WithPeople(), Cities, NewYork()) == Ok(WithNewYork())
  {
    InsertFull(WithPeople(), Cities, NewYork());
    assert [HeaderCells(CityHeaders())] + [NewYork()] == [HeaderCells(CityHeaders()), NewYork()];
  }

  lemma InsertLondon()
    ensures InsertEntry(WithNewYork(), Cities, London()) == Ok(Seeded())
  {
    var h := HeaderCells(CityHeaders());
    InsertFull(WithNewYork(), Cities, London());
    assert [h, NewYork()] + [London()] == [h, NewYork(), London()];
    assert WithNewYork()[Cities := [h, NewYork(), London()]] == Seeded();
  }

  /** The four inserts fill the two fresh tables in order. */
  lemma SetupSteps()
    ensures CreateTable(map[], People, PeopleHeaders()).Ok?
    ensures CreateTable(CreateTable(map[], People, PeopleHeaders()).value, Cities, CityHeaders()).Ok?
    ensures var db := CreateTable(CreateTable(map[], People, PeopleHeaders()).value, Cities, CityHeaders()).value;
            && InsertEntry(db, People, John()).Ok?
            && InsertEntry(InsertEntry(db, People, John()).value, People, Alice()).Ok?
            && var db2 := InsertEntry(InsertEntry(db, People, John()).value, People, Alice()).value;
            && InsertEntry(db2, Cities, NewYork()).Ok?
            && InsertEntry(InsertEntry(db2, Cities, NewYork()).value, Cities, London()) == Ok(Seeded())
  {
    CreateSteps();
    InsertJohn();
    InsertAlice();
    InsertNewYork();
    InsertLondon();
  }

  /** A table whose header row was written from names reads those names back. */
  lemma NamedHeaders(t: Table, hs: seq<string>)
    requires |t| > 0 && t[0] == HeaderCells(hs)
    ensures Headers(t) == hs
  {
  }

  /** An entry of TestTable1: one key per header, each holding its cell. */
  lemma PersonEntry(row: Row)
    requires |row| == 3
    ensures Materialize(PeopleHeaders(), row) == map["ID" := row[0], "Name" := row[1], "Age" := row[2]]
  {
    var hs := PeopleHeaders();
    assert hs[..2] == ["ID", "Name"] && hs[..2][..1] == ["ID"] && hs[..2][..1][..0] == [];
    assert Materialize(["ID"], row) == map["ID" := row[0]];
    assert Materialize(["ID", "Name"], row) == map["ID" := row[0], "Name" := row[1]];
  }

  /** An entry of TestTable2. */
  lemma CityEntry(row: Row)
    requires |row| == 2
    ensures Materialize(CityHeaders(), row) == map["ID" := row[0], "City" := row[1]]
  {
    var hs := CityHeaders();
    assert hs[..1] == ["ID"] && hs[..1][..0] == [];
  }

  /** Reading TestTable1 back gives two entries, John's first. */
  lemma GetStep()
    ensures GetEntries(Seeded(), People, None, None).Ok?
    ensures var es := GetEntries(Seeded(), People, None, None).value;
            |es| == 2 && Get(es[0], "ID") == VInt(1) && Get(es[0], "Name") == VStr("John") && Get(es[0], "Age") == VInt(25)
  {
    var t := Seeded()[People];
    NamedHeaders(t, PeopleHeaders());
    GetAllEntries(Seeded(), People);
    PersonEntry(John());
    assert GetEntries(Seeded(), People, None, None).value[0] == Materialize(PeopleHeaders(), John());
  }

  /** The filter ID == n holds exactly of an entry whose
      ID is strictly equal to n, and never throws. */
  lemma IdFilter(e: Entry, n: int)
    ensures Matches(e, IdIs(n)) == Ok(Get(e, "ID") == VInt(n))
  {
    assert IdIs(n)[1..] == [];
  }

  /** Filtering two entries of which only the first matches. */
  lemma FilterFirstOfTwo(a: Entry, b: Entry, crit: seq<Criterion>)
    requires Matches(a, crit) == Ok(true) && Matches(b, crit) == Ok(false)
    ensures FilterEntries([a, b], crit) == Ok([a])
  {
    assert [b][1..] == [];
    assert FilterEntries([b], crit) == Ok([]);
    assert [a, b][1..] == [b];
    assert [a] + [] == [a];
  }

  /** John after the update. */
  function John26(): Row { [VInt(1), VStr("John"), VInt(26)] }

  function Updated(): Db {
    Seeded()[People := [HeaderCells(PeopleHeaders()), John26(), Alice()]]
  }

  /** The entries of a two-person TestTable1, in row order. */
  lemma TwoPeople(a: Row, b: Row)
    requires |a| == 3 && |b| == 3
    ensures EntriesOf([HeaderCells(PeopleHeaders()), a, b])
            == [Materialize(PeopleHeaders(), a), Materialize(PeopleHeaders(), b)]
  {
    NamedHeaders([HeaderCells(PeopleHeaders()), a, b], PeopleHeaders());
  }

  /** The ID filter on a person's entry compares the row's first cell. */
  lemma IdOfPerson(row: Row, n: int)
    requires |row| == 3
    ensures Matches(Materialize(PeopleHeaders(), row), IdIs(n)) == Ok(row[0] == VInt(n))
  {
    PersonEntry(row);
    IdFilter(Materialize(PeopleHeaders(), row), n);
  }

  /** John's row with the age column given 26. */
  lemma JohnRewritten()
    ensures Rewrite(John(), PeopleHeaders(), AgeTo26()) == John26()
  {
    var r := Rewrite(John(), PeopleHeaders(), AgeTo26());
    assert !Provided(AgeTo26(), "ID") && !Provided(AgeTo26(), "Name") && Provided(AgeTo26(), "Age");
    assert r[0] == VInt(1) && r[1] == VStr("John") && r[2] == VInt(26);
  }

  /** Data row i after a successful update, one row at a time. */
  lemma UpdatedRow(db: Db, name: string, crit: seq<Criterion>, u: Updates, i: nat)
    requires name in db && Rectangular(db[name]) && UpdateEntries(db, name, crit, u).Ok?
    requires i < |DataRows(db[name])|
    ensures i < |DataRows(UpdateEntries(db, name, crit, u).value[name])|
    ensures DataRows(UpdateEntries(db, name, crit, u).value[name])[i]
            == if Matches(EntriesOf(db[name])[i], crit) == Ok(true)
               then Rewrite(DataRows(db[name])[i], Headers(db[name]), u)
               else DataRows(db[name])[i]
  {
    UpdateEntriesSpec(db, name, crit, u);
  }

  /** A successful update replaces the one table and nothing else. */
  lemma UpdateWritesOne(db: Db, name: string, crit: seq<Criterion>, u: Updates)
    requires name in db && Rectangular(db[name]) && UpdateEntries(db, name, crit, u).Ok?
    ensures UpdateEntries(db, name, crit, u).value == db[name := UpdateEntries(db, name, crit, u).value[name]]
  {
  }

  lemma ThreeRows(t: Table, a: Row, b: Row, c: Row)
    requires |t| == 3 && t[0] == a && t[1] == b && t[2] == c
    ensures t == [a, b, c]
  {
  }

  /** Updating ID 1 to age 26 succeeds, and the data rows become John at 26
      followed by Alice as she was. */
  lemma UpdatedRows()
    ensures UpdateEntries(Seeded(), People, IdIs(1), AgeTo26()).Ok?
    ensures var t' := UpdateEntries(Seeded(), People, IdIs(1), AgeTo26()).value[People];
            |t'| == 3 && t'[1] == John26() && t'[2] == Alice()
  {
    var db := Seeded();
    var t := db[People];
    assert t == [HeaderCells(PeopleHeaders()), John(), Alice()];
    NamedHeaders(t, PeopleHeaders());
    TwoPeople(John(), Alice());
    IdOfPerson(John(), 1);
    IdOfPerson(Alice(), 1);
    var es := EntriesOf(t);
    FilterFirstOfTwo(es[0], es[1], IdIs(1));
    UpdateEntriesSpec(db, People, IdIs(1), AgeTo26());
    var t' := UpdateEntries(db, People, IdIs(1), AgeTo26()).value[People];
    assert DataRows(t)[0] == John() && DataRows(t)[1] == Alice();
    UpdatedRow(db, People, IdIs(1), AgeTo26(), 0);
    UpdatedRow(db, People, IdIs(1), AgeTo26(), 1);
    JohnRewritten();
    assert t'[1] == DataRows(t')[0] && t'[2] == DataRows(t')[1];
  }

  /** Updating ID 1 to age 26 rewrites John's row only. */
  lemma UpdateApplied()
    ensures UpdateEntries(Seeded(), People, IdIs(1), AgeTo26()) == Ok(Updated())
  {
    var db := Seeded();
    UpdatedRows();
    UpdateWritesOne(db, People, IdIs(1), AgeTo26());
    var r := UpdateEntries(db, People, IdIs(1), AgeTo26()).value;
    var t' := r[People];
    assert HeaderPart(t') == HeaderPart(db[People]);
    assert t'[0] == HeaderCells(PeopleHeaders());
    ThreeRows(t', HeaderCells(PeopleHeaders()), John26(), Alice());
  }

  /** Reading ID 1 back after the update finds John, aged 26. */
  lemma UpdatedReadBack()
    ensures GetEntries(Updated(), People, Some(IdIs(1)), None) == Ok([Materialize(PeopleHeaders(), John26())])
  {
    var t := Updated()[People];
    TwoPeople(John26(), Alice());
    IdOfPerson(John26(), 1);
    IdOfPerson(Alice(), 1);
    var es := EntriesOf(t);
    FilterFirstOfTwo(es[0], es[1], IdIs(1));
  }

  /** Updating ID 1 to age 26 rewrites John's row only, and reading ID 1
      back shows the new age. */
  lemma UpdateStep()
    ensures UpdateEntries(Seeded(), People, IdIs(1), AgeTo26()) == Ok(Updated())
    ensures GetEntries(Updated(), People, Some(IdIs(1)), None).Ok?
    ensures var es := GetEntries(Updated(), People, Some(IdIs(1)), None).value;
            |es| == 1 && Get(es[0], "Age") == VInt(26)
  {
    UpdateApplied();
    UpdatedReadBack();
    PersonEntry(John26());
  }

  function Pruned(): Db {
    Seeded()[People := [HeaderCells(PeopleHeaders()), Alice()]]
  }

  /** Keeping the rows of two that do not match, when only the first does. */
  lemma UnmatchedOfTwo(hs: seq<string>, a: Row, b: Row, crit: seq<Criterion>)
    requires Matches(Materialize(hs, a), crit) == Ok(true) && Matches(Materialize(hs, b), crit) == Ok(false)
    ensures Unmatched(hs, [a, b], crit) == [b]
  {
    assert [b][1..] == [];
    assert Unmatched(hs, [b], crit) == [b];
    assert [a, b][1..] == [b];
  }

  /** Deleting ID 1 from the updated TestTable1 keeps Alice's row only. */
  lemma DeletedPeople()
    ensures DeleteEntries(Updated(), People, IdIs(1)).Ok?
    ensures DeleteEntries(Updated(), People, IdIs(1)).value[People] == [HeaderCells(PeopleHeaders()), Alice()]
  {
    var db := Updated();
    var t := db[People];
    NamedHeaders(t, PeopleHeaders());
    TwoPeople(John26(), Alice());
    IdOfPerson(John26(), 1);
    IdOfPerson(Alice(), 1);
    var es := EntriesOf(t);
    FilterFirstOfTwo(es[0], es[1], IdIs(1));
    DeleteEntriesSpec(db, People, IdIs(1));
    assert DataRows(t) == [John26(), Alice()];
    UnmatchedOfTwo(PeopleHeaders(), John26(), Alice(), IdIs(1));
  }

  /** Deleting ID 1 removes John's row only, leaving one entry. */
  lemma DeleteStep()
    ensures DeleteEntries(Updated(), People, IdIs(1)) == Ok(Pruned())
    ensures GetEntries(Pruned(), People, None, None).Ok?
    ensures |GetEntries(Pruned(), People, None, None).value| == 1
  {
    DeletedPeople();
    var d := DeleteEntries(Updated(), People, IdIs(1)).value;
    assert d == Pruned();
  }

  /** The join on ID after the delete: Alice's entry, overlaid with London's.
      The repository's walk-through calls this operation `joinInner`; the
      store's operation is joinTables. */
  lemma JoinStep()
    ensures JoinTables(Pruned(), People, Cities, "ID", None).Ok?
    ensures var es := JoinTables(Pruned(), People, Cities, "ID", None).value;
            && |es| == 1
            && Get(es[0], "ID") == VInt(2)
            && Get(es[0], "Name") == VStr("Alice")
            && Get(es[0], "City") == VStr("London")
  {
    var al := Materialize(PeopleHeaders(), Alice());
    var lo := Materialize(CityHeaders(), London());
    JoinedAlice();
    AliceInLondon();
    var es := JoinTables(Pruned(), People, Cities, "ID", None).value;
    assert es[0] == al + lo;
  }

  /** The only joined entry is Alice's overlaid with London's. */
  lemma JoinedAlice()
    ensures JoinTables(Pruned(), People, Cities, "ID", None).Ok?
    ensures var es := JoinTables(Pruned(), People, Cities, "ID", None).value;
            |es| == 1 && es[0] == Materialize(PeopleHeaders(), Alice()) + Materialize(CityHeaders(), London())
  {
    var db := Pruned();
    var l := db[People];
    var r := db[Cities];
    NamedHeaders(l, PeopleHeaders());
    NamedHeaders(r, CityHeaders());
    PersonEntry(Alice());
    CityEntry(NewYork());
    CityEntry(London());
    var al := Materialize(PeopleHeaders(), Alice());
    var ny := Materialize(CityHeaders(), NewYork());
    var lo := Materialize(CityHeaders(), London());
    assert EntriesOf(l) == [al];
    assert EntriesOf(r) == [ny, lo];
    JoinTablesSpec(db, People, Cities, "ID");
    assert Get(ny, "ID") != Get(al, "ID");
    assert Get(lo, "ID") == Get(al, "ID");
  }

  /** Alice's entry overlaid with London's. */
  lemma AliceInLondon()
    ensures var e := Materialize(PeopleHeaders(), Alice()) + Materialize(CityHeaders(), London());
            Get(e, "ID") == VInt(2) && Get(e, "Name") == VStr("Alice") && Get(e, "City") == VStr("London")
  {
    PersonEntry(Alice());
    CityEntry(London());
  }

  /** getHeaders reads back the names TestTable1 was created with. */
  lemma HeadersStep()
    ensures GetHeaders(Pruned(), People) == Ok([VStr("ID"), VStr("Name"), VStr("Age")])
  {
    assert HeaderCells(PeopleHeaders()) == [VStr("ID"), VStr("Name"), VStr("Age")];
  }

  /** One entry is left after the delete. */
  lemma CountStep()
    ensures CountEntries(Pruned(), People) == Ok(1)
  {
  }

  /** Clearing TestTable1 leaves no entries. */
  lemma ClearStep()
    ensures ClearTable(Pruned(), People).Ok?
    ensures GetEntries(ClearTable(Pruned(), People).value, People, None, None) == Ok([])
  {
  }

  /** Dropping both tables empties the store. */
  lemma DropStep()
    ensures var c := ClearTable(Pruned(), People).value;
            && DeleteTable(c, People).Ok?
            && DeleteTable(DeleteTable(c, People).value, Cities) == Ok(map[])
  {
    var c := ClearTable(Pruned(), People).value;
    assert c.Keys == {People, Cities};
    var d := DeleteTable(c, People).value;
    assert d.Keys == {Cities};
    assert DeleteTable(d, Cities).value.Keys == {};
  }
}
