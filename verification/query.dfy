/** The query engine on one grid: getEntries, deleteEntries and
    updateEntries once the table has been looked up. */
module Query {
  import opened Results
  import opened Values
  import opened Entries
  import opened Filter
  import opened Sheet

  /** One entry per data row, in row order, each built against the headers. */
  function EntriesOf(t: Table): seq<Entry> {
    seq(|DataRows(t)|, i requires 0 <= i < |DataRows(t)| => Materialize(Headers(t), DataRows(t)[i]))
  }

  /** The entries the filter holds of, in order; the first entry whose
      evaluation throws aborts the whole filter. */
  function FilterEntries(es: seq<Entry>, crit: seq<Criterion>): (r: Result<seq<Entry>>)
    ensures r.Ok? ==> |r.value| <= |es|
    decreases |es|
  {
    if |es| == 0 then Ok([])
    else
      var hit :- Matches(es[0], crit);
      var rest :- FilterEntries(es[1..], crit);
      Ok(if hit then [es[0]] + rest else rest)
  }

  /** Filtering throws iff the filter throws on some entry, with the error
      of the first such entry; otherwise it keeps exactly the matching
      entries. */
  lemma {:induction false} FilterEntriesSpec(es: seq<Entry>, crit: seq<Criterion>)
    ensures FilterEntries(es, crit).Ok? <==> forall i | 0 <= i < |es| :: Matches(es[i], crit).Ok?
    ensures FilterEntries(es, crit).Err? ==>
      exists i | 0 <= i < |es| ::
        Matches(es[i], crit) == Err(FilterEntries(es, crit).error)
        && forall j | 0 <= j < i :: Matches(es[j], crit).Ok?
    ensures FilterEntries(es, crit).Ok? ==>
              forall x | x in FilterEntries(es, crit).value :: x in es && Matches(x, crit) == Ok(true)
    ensures FilterEntries(es, crit).Ok? ==>
              forall i | 0 <= i < |es| && Matches(es[i], crit) == Ok(true) :: es[i] in FilterEntries(es, crit).value
    decreases |es|
  {
    if |es| > 0 {
      var tail := es[1..];
      FilterEntriesSpec(tail, crit);
      assert forall i | 1 <= i < |es| :: es[i] == tail[i - 1];
      var m := Matches(es[0], crit);
      var rest := FilterEntries(tail, crit);
      if m.Ok? && rest.Err? {
        var k :| 0 <= k < |tail| && Matches(tail[k], crit) == Err(rest.error)
                 && forall j | 0 <= j < k :: Matches(tail[j], crit).Ok?;
        assert Matches(es[k + 1], crit) == Err(rest.error);
      }
    }
  }

  /** Whether filtering fails, alone. */
  lemma FilterEntriesOk(es: seq<Entry>, crit: seq<Criterion>)
    ensures FilterEntries(es, crit).Ok? <==> forall i | 0 <= i < |es| :: Matches(es[i], crit).Ok?
  {
    FilterEntriesSpec(es, crit);
  }

  predicate Increasing(ps: seq<nat>) {
    forall i, j | 0 <= i < j < |ps| :: ps[i] < ps[j]
  }

  /** The reduce of deleteEntries from data index k on: the sheet position
      `index + 2` of every matching data row. */
  function MatchPositions(es: seq<Entry>, crit: seq<Criterion>, k: nat): (r: Result<seq<nat>>)
    requires k <= |es|
    ensures r.Ok? ==> forall j | 0 <= j < |r.value| :: k + 2 <= r.value[j] < |es| + 2
    decreases |es| - k
  {
    if k == |es| then Ok([])
    else
      var hit :- Matches(es[k], crit);
      var rest :- MatchPositions(es, crit, k + 1);
      Ok(if hit then [k + 2] + rest else rest)
  }

  /** The positions come in ascending order and are exactly those of the
      matching entries; the reduce throws iff the filter throws on some
      entry, with the error of the first such entry. */
  lemma MatchPositionsSpec(es: seq<Entry>, crit: seq<Criterion>, k: nat)
    requires k <= |es|
    ensures MatchPositions(es, crit, k).Ok? <==> forall i | k <= i < |es| :: Matches(es[i], crit).Ok?
    ensures MatchPositions(es, crit, k).Err? ==>
      exists i | k <= i < |es| ::
        Matches(es[i], crit) == Err(MatchPositions(es, crit, k).error)
        && forall j | k <= j < i :: Matches(es[j], crit).Ok?
    ensures MatchPositions(es, crit, k).Ok? ==> Increasing(MatchPositions(es, crit, k).value)
    ensures MatchPositions(es, crit, k).Ok? ==>
              forall i | k <= i < |es| ::
                (i + 2 in MatchPositions(es, crit, k).value <==> Matches(es[i], crit) == Ok(true))
  {
    MatchPositionsFailure(es, crit, k);
    if MatchPositions(es, crit, k).Ok? {
      MatchPositionsOrder(es, crit, k);
    }
  }

  lemma MatchPositionsFailure(es: seq<Entry>, crit: seq<Criterion>, k: nat)
    requires k <= |es|
    ensures MatchPositions(es, crit, k).Ok? <==> forall i | k <= i < |es| :: Matches(es[i], crit).Ok?
    ensures MatchPositions(es, crit, k).Err? ==>
      exists i | k <= i < |es| ::
        Matches(es[i], crit) == Err(MatchPositions(es, crit, k).error)
        && forall j | k <= j < i :: Matches(es[j], crit).Ok?
  {
    MatchPositionsOk(es, crit, k);
    MatchPositionsFirstError(es, crit, k);
  }

  lemma {:induction false} MatchPositionsOk(es: seq<Entry>, crit: seq<Criterion>, k: nat)
    requires k <= |es|
    ensures MatchPositions(es, crit, k).Ok? <==> forall i | k <= i < |es| :: Matches(es[i], crit).Ok?
    decreases |es| - k
  {
    if k < |es| {
      MatchPositionsOk(es, crit, k + 1);
    }
  }

  lemma {:induction false} MatchPositionsFirstError(es: seq<Entry>, crit: seq<Criterion>, k: nat)
    requires k <= |es|
    ensures MatchPositions(es, crit, k).Err? ==>
      exists i | k <= i < |es| ::
        Matches(es[i], crit) == Err(MatchPositions(es, crit, k).error)
        && forall j | k <= j < i :: Matches(es[j], crit).Ok?
    decreases |es| - k
  {
    if k < |es| {
      var m := Matches(es[k], crit);
      if m.Err? {
        assert MatchPositions(es, crit, k) == Err(m.error);
      } else {
        MatchPositionsFirstError(es, crit, k + 1);
        var rest := MatchPositions(es, crit, k + 1);
        if rest.Err? {
          assert MatchPositions(es, crit, k) == Err(rest.error);
          var i :| k + 1 <= i < |es| && Matches(es[i], crit) == Err(rest.error)
                   && forall j | k + 1 <= j < i :: Matches(es[j], crit).Ok?;
          assert forall j | k <= j < i :: Matches(es[j], crit).Ok?;
        }
      }
    }
  }

  lemma MatchPositionsOrder(es: seq<Entry>, crit: seq<Criterion>, k: nat)
    requires k <= |es| && MatchPositions(es, crit, k).Ok?
    ensures Increasing(MatchPositions(es, crit, k).value)
    ensures forall i | k <= i < |es| ::
              (i + 2 in MatchPositions(es, crit, k).value <==> Matches(es[i], crit) == Ok(true))
  {
    MatchPositionsAscend(es, crit, k);
    MatchPositionsMembers(es, crit, k);
  }

  lemma {:induction false} MatchPositionsAscend(es: seq<Entry>, crit: seq<Criterion>, k: nat)
    requires k <= |es| && MatchPositions(es, crit, k).Ok?
    ensures Increasing(MatchPositions(es, crit, k).value)
    decreases |es| - k
  {
    if k < |es| {
      var rest := MatchPositions(es, crit, k + 1);
      assert rest.Ok?;
      MatchPositionsAscend(es, crit, k + 1);
      var ps := MatchPositions(es, crit, k).value;
      if Matches(es[k], crit).value {
        assert ps == [k + 2] + rest.value;
      }
    }
  }

  lemma {:induction false} MatchPositionsMembers(es: seq<Entry>, crit: seq<Criterion>, k: nat)
    requires k <= |es| && MatchPositions(es, crit, k).Ok?
    ensures forall i | k <= i < |es| ::
              (i + 2 in MatchPositions(es, crit, k).value <==> Matches(es[i], crit) == Ok(true))
    decreases |es| - k
  {
    if k < |es| {
      var m := Matches(es[k], crit);
      var rest := MatchPositions(es, crit, k + 1);
      assert m.Ok? && rest.Ok?;
      MatchPositionsMembers(es, crit, k + 1);
      var ps := MatchPositions(es, crit, k).value;
      assert k + 2 !in rest.value;
      if m.value {
        assert ps == [k + 2] + rest.value;
      } else {
        assert m == Ok(false);
        assert ps == rest.value;
      }
    }
  }

  /** The entries at the given sheet positions. */
  function Pick(es: seq<Entry>, ps: seq<nat>): seq<Entry>
    requires forall j | 0 <= j < |ps| :: 2 <= ps[j] < |es| + 2
  {
    seq(|ps|, j requires 0 <= j < |ps| => es[ps[j] - 2])
  }

  lemma PickCons(es: seq<Entry>, p: nat, ps: seq<nat>)
    requires 2 <= p < |es| + 2 && forall j | 0 <= j < |ps| :: 2 <= ps[j] < |es| + 2
    ensures Pick(es, [p] + ps) == [es[p - 2]] + Pick(es, ps)
  {
    var l := Pick(es, [p] + ps);
    var r := [es[p - 2]] + Pick(es, ps);
    assert |l| == |r|;
    forall j | 0 <= j < |l|
      ensures l[j] == r[j]
    {
      if j > 0 {
        assert ([p] + ps)[j] == ps[j - 1];
      }
    }
  }

  /** Filtering selects exactly the entries at the positions deleteEntries
      computes, in the same order, and fails with the same error. */
  lemma {:induction false} FilterPicksPositions(es: seq<Entry>, crit: seq<Criterion>, k: nat)
    requires k <= |es|
    ensures MatchPositions(es, crit, k).Ok? ==>
              FilterEntries(es[k..], crit) == Ok(Pick(es, MatchPositions(es, crit, k).value))
    ensures MatchPositions(es, crit, k).Err? ==>
              FilterEntries(es[k..], crit) == Err(MatchPositions(es, crit, k).error)
    decreases |es| - k
  {
    if k == |es| {
      assert es[k..] == [];
      assert MatchPositions(es, crit, k) == Ok([]);
      assert Pick(es, []) == [];
    } else {
      FilterPicksPositions(es, crit, k + 1);
      var tail := es[k..];
      assert tail[0] == es[k];
      assert tail[1..] == es[k + 1..];
      var m := Matches(es[k], crit);
      var rest := MatchPositions(es, crit, k + 1);
      var frest := FilterEntries(es[k + 1..], crit);
      if m.Err? {
        assert MatchPositions(es, crit, k) == Err(m.error);
        assert FilterEntries(tail, crit) == Err(m.error);
      } else if rest.Err? {
        assert MatchPositions(es, crit, k) == Err(rest.error);
        assert frest == Err(rest.error);
        assert FilterEntries(tail, crit) == Err(rest.error);
      } else {
        assert frest == Ok(Pick(es, rest.value));
        if m.value {
          assert MatchPositions(es, crit, k) == Ok([k + 2] + rest.value);
          assert FilterEntries(tail, crit) == Ok([es[k]] + frest.value);
          PickCons(es, k + 2, rest.value);
        } else {
          assert MatchPositions(es, crit, k) == Ok(rest.value);
          assert FilterEntries(tail, crit) == Ok(frest.value);
        }
      }
    }
  }

  /** Reference definition: the data rows a filter does not select, in
      their original order. */
  function Unmatched(hs: seq<string>, rows: seq<Row>, crit: seq<Criterion>): (r: seq<Row>)
    ensures |r| <= |rows|
    decreases |rows|
  {
    if |rows| == 0 then []
    else
      (if Matches(Materialize(hs, rows[0]), crit) == Ok(true) then [] else [rows[0]])
      + Unmatched(hs, rows[1..], crit)
  }

  /** Every kept row is one of the given rows, and none of them matches. */
  lemma {:induction false} UnmatchedSpec(hs: seq<string>, rows: seq<Row>, crit: seq<Criterion>)
    ensures forall x | x in Unmatched(hs, rows, crit) :: x in rows && Matches(Materialize(hs, x), crit) != Ok(true)
    decreases |rows|
  {
    if |rows| > 0 {
      UnmatchedSpec(hs, rows[1..], crit);
      var head := if Matches(Materialize(hs, rows[0]), crit) == Ok(true) then [] else [rows[0]];
      assert Unmatched(hs, rows, crit) == head + Unmatched(hs, rows[1..], crit);
      assert forall x | x in rows[1..] :: x in rows;
    }
  }

  /** The rows of the grid from index k on whose 1-based position is not
      in ps. */
  function KeptFrom(t: Table, ps: seq<nat>, k: nat): seq<Row>
    decreases |t| - k
  {
    if k >= |t| then []
    else (if k + 1 in ps then [] else [t[k]]) + KeptFrom(t, ps, k + 1)
  }

  /** Deleting the collected positions one row at a time, from the largest
      position down. */
  function DeleteDescending(t: Table, ps: seq<nat>): (r: Table)
    requires Increasing(ps) && forall j | 0 <= j < |ps| :: 1 <= ps[j] <= |t|
    ensures |r| == |t| - |ps|
    decreases |ps|
  {
    if |ps| == 0 then t
    else
      var p := ps[|ps| - 1];
      DeleteDescending(DeleteRow(t, p), ps[..|ps| - 1])
  }

  lemma {:induction false} KeptNone(t: Table, ps: seq<nat>, k: nat)
    requires k <= |t| && forall q | q in ps :: q <= k
    ensures KeptFrom(t, ps, k) == t[k..]
    decreases |t| - k
  {
    if k < |t| {
      KeptNone(t, ps, k + 1);
      assert t[k..] == [t[k]] + t[k + 1..];
    }
  }

  /** Deleting position p, when every other pending position lies above
      it, removes exactly that row: the rows above p keep their positions. */
  lemma {:induction false} KeptAfterDelete(t: Table, ps: seq<nat>, p: nat, k: nat)
    requires 1 <= p <= |t| && forall q | q in ps :: 1 <= q < p
    requires k <= p - 1
    ensures KeptFrom(DeleteRow(t, p), ps, k) == KeptFrom(t, ps + [p], k)
    decreases p - 1 - k
  {
    var t' := DeleteRow(t, p);
    if k < p - 1 {
      KeptAfterDelete(t, ps, p, k + 1);
      assert (k + 1 in ps) <==> (k + 1 in ps + [p]);
    } else {
      KeptNone(t', ps, p - 1);
      KeptNone(t, ps + [p], p);
      assert t'[p - 1..] == t[p..];
    }
  }

  /** Deleting in descending order removes exactly the rows at the
      positions computed beforehand: no deletion shifts a row that is still
      to be deleted. */
  lemma {:induction false} DeleteDescendingKeeps(t: Table, ps: seq<nat>)
    requires Increasing(ps) && forall j | 0 <= j < |ps| :: 1 <= ps[j] <= |t|
    ensures DeleteDescending(t, ps) == KeptFrom(t, ps, 0)
    decreases |ps|
  {
    if |ps| == 0 {
      KeptNone(t, ps, 0);
    } else {
      var p := ps[|ps| - 1];
      var rest := ps[..|ps| - 1];
      DeleteDescendingKeeps(DeleteRow(t, p), rest);
      KeptAfterDelete(t, rest, p, 0);
      assert rest + [p] == ps;
    }
  }

  /** With positions that are exactly those of the matching data rows, the
      kept rows below the header are the unmatched ones. */
  lemma {:induction false} KeptIsUnmatched(t: Table, ps: seq<nat>, crit: seq<Criterion>, k: nat)
    requires 1 <= k <= |t|
    requires forall j | 1 <= j < |t| ::
               (j + 1 in ps <==> Matches(Materialize(Headers(t), t[j]), crit) == Ok(true))
    ensures KeptFrom(t, ps, k) == Unmatched(Headers(t), t[k..], crit)
    decreases |t| - k
  {
    if k < |t| {
      var hs := Headers(t);
      var rows := t[k..];
      assert rows[0] == t[k] && rows[1..] == t[k + 1..];
      var head := if k + 1 in ps then [] else [t[k]];
      assert (k + 1 in ps) <==> Matches(Materialize(hs, t[k]), crit) == Ok(true);
      assert KeptFrom(t, ps, k) == head + KeptFrom(t, ps, k + 1);
      assert Unmatched(hs, rows, crit) == head + Unmatched(hs, t[k + 1..], crit);
      KeptIsUnmatched(t, ps, crit, k + 1);
    } else {
      assert t[k..] == [];
    }
  }

  /** deleteEntries on one grid: compute the matching positions from one
      snapshot, then delete them from the largest down. */
  function DeleteMatching(t: Table, crit: seq<Criterion>): Result<Table> {
    var es := EntriesOf(t);
    var ps :- MatchPositions(es, crit, 0);
    DeletablePositions(t, ps, crit);
    Ok(DeleteDescending(t, ps))
  }

  /** The positions computed from the entries of a grid all address data
      rows of that grid. */
  lemma DeletablePositions(t: Table, ps: seq<nat>, crit: seq<Criterion>)
    requires MatchPositions(EntriesOf(t), crit, 0) == Ok(ps)
    ensures Increasing(ps) && forall j | 0 <= j < |ps| :: 2 <= ps[j] <= |t|
  {
    MatchPositionsSpec(EntriesOf(t), crit, 0);
  }

  /** The header row stays, followed by exactly the data rows the filter
      does not select, in their original order; the grid shrinks by the
      number of entries getEntries returns for the same filter, and the
      deletion fails exactly when that getEntries fails, with its error. */
  lemma DeleteMatchingSpec(t: Table, crit: seq<Criterion>)
    ensures DeleteMatching(t, crit).Ok? <==> FilterEntries(EntriesOf(t), crit).Ok?
    ensures DeleteMatching(t, crit).Err? ==> FilterEntries(EntriesOf(t), crit) == Err(DeleteMatching(t, crit).error)
    ensures DeleteMatching(t, crit).Ok? ==>
              DeleteMatching(t, crit).value == HeaderPart(t) + Unmatched(Headers(t), DataRows(t), crit)
    ensures DeleteMatching(t, crit).Ok? ==>
              |DeleteMatching(t, crit).value| == |t| - |FilterEntries(EntriesOf(t), crit).value|
  {
    var es := EntriesOf(t);
    FilterPicksPositions(es, crit, 0);
    assert es[0..] == es;
    var m := MatchPositions(es, crit, 0);
    MatchPositionsSpec(es, crit, 0);
    if m.Ok? {
      var ps := m.value;
      DeletablePositions(t, ps, crit);
      var r := DeleteDescending(t, ps);
      assert DeleteMatching(t, crit) == Ok(r);
      DeleteDescendingKeeps(t, ps);
      if |t| > 0 {
        assert forall j | 1 <= j < |t| :: es[j - 1] == Materialize(Headers(t), t[j]);
        KeptIsUnmatched(t, ps, crit, 1);
        assert 1 !in ps;
        assert KeptFrom(t, ps, 0) == [t[0]] + KeptFrom(t, ps, 1);
      }
    }
  }

  /** A filter that is false on every entry selects none of them. */
  lemma {:induction false} FilterNone(es: seq<Entry>, crit: seq<Criterion>)
    requires forall i | 0 <= i < |es| :: Matches(es[i], crit) == Ok(false)
    ensures FilterEntries(es, crit) == Ok([])
    decreases |es|
  {
    if |es| > 0 {
      FilterNone(es[1..], crit);
    }
  }

  /** Where the filter throws on no row, the unmatched rows are those on
      which it is false. */
  lemma {:induction false} UnmatchedAreFalse(hs: seq<string>, rows: seq<Row>, crit: seq<Criterion>)
    requires forall j | 0 <= j < |rows| :: Matches(Materialize(hs, rows[j]), crit).Ok?
    ensures forall x | x in Unmatched(hs, rows, crit) :: Matches(Materialize(hs, x), crit) == Ok(false)
    decreases |rows|
  {
    if |rows| > 0 {
      assert forall j | 1 <= j < |rows| :: rows[1..][j - 1] == rows[j];
      UnmatchedAreFalse(hs, rows[1..], crit);
      var head := if Matches(Materialize(hs, rows[0]), crit) == Ok(true) then [] else [rows[0]];
      assert Unmatched(hs, rows, crit) == head + Unmatched(hs, rows[1..], crit);
      var m := Matches(Materialize(hs, rows[0]), crit);
      if m != Ok(true) {
        assert m.value != true;
      }
    }
  }

  /** The entries of the header row followed by chosen data rows. */
  lemma EntriesOfKept(t: Table, rows: seq<Row>)
    requires |t| > 0
    ensures EntriesOf([t[0]] + rows) == seq(|rows|, i requires 0 <= i < |rows| => Materialize(Headers(t), rows[i]))
  {
    var t' := [t[0]] + rows;
    assert Headers(t') == Headers(t);
    assert DataRows(t') == rows;
  }

  /** The entries of a grid grown by one row are the old entries followed
      by the new row's entry. */
  lemma EntriesOfAppend(t: Table, row: Row)
    requires |t| > 0
    ensures EntriesOf(t + [row]) == EntriesOf(t) + [Materialize(Headers(t), row)]
  {
    var t' := t + [row];
    assert t'[0] == t[0];
    assert Headers(t') == Headers(t);
    assert DataRows(t') == DataRows(t) + [row];
  }

  /** After a deletion nothing in the table matches the filter any more:
      the same filter now selects no entry (and does not throw). */
  lemma NothingLeftMatches(t: Table, crit: seq<Criterion>)
    requires DeleteMatching(t, crit).Ok?
    ensures FilterEntries(EntriesOf(DeleteMatching(t, crit).value), crit) == Ok([])
  {
    DeleteMatchingSpec(t, crit);
    if |t| > 0 {
      var hs := Headers(t);
      var kept := Unmatched(hs, DataRows(t), crit);
      var es := EntriesOf(t);
      FilterEntriesSpec(es, crit);
      assert forall j | 0 <= j < |es| :: Matches(es[j], crit).Ok?;
      assert forall j | 0 <= j < |DataRows(t)| :: es[j] == Materialize(hs, DataRows(t)[j]);
      UnmatchedAreFalse(hs, DataRows(t), crit);
      assert forall i | 0 <= i < |kept| :: kept[i] in kept;
      EntriesOfKept(t, kept);
      assert DeleteMatching(t, crit).value == [t[0]] + kept;
      FilterNone(EntriesOf([t[0]] + kept), crit);
    } else {
      FilterNone(EntriesOf(DeleteMatching(t, crit).value), crit);
    }
  }

  /** The update object of updateEntries: header name to new value. */
  type Updates = map<string, Value>

  /** The update gives a value for h, and that value is not undefined. */
  predicate Provided(u: Updates, h: string) {
    h in u && u[h] != VNone
  }

  /** Reference definition of a matching row after the update: each column
      whose header has a provided value holds that value, every other column
      keeps its cell. */
  function Rewrite(row: Row, hs: seq<string>, u: Updates): (r: Row)
    ensures |r| == |row|
  {
    seq(|row|, c requires 0 <= c < |row| => if c < |hs| && Provided(u, hs[c]) then u[hs[c]] else row[c])
  }

  /** The writes to grid row i, from column idx on: one cell write per
      header with a provided value, left to right. */
  function WriteCells(cur: Table, i: nat, hs: seq<string>, u: Updates, idx: nat): (r: Table)
    requires 1 <= i < |cur| && |hs| <= |cur[i]| && idx <= |hs|
    ensures |r| == |cur| && forall j | 0 <= j < |cur| && j != i :: r[j] == cur[j]
    ensures |r[i]| == |cur[i]|
    ensures forall c | 0 <= c < |cur[i]| ::
              r[i][c] == if idx <= c < |hs| && Provided(u, hs[c]) then u[hs[c]] else cur[i][c]
    decreases |hs| - idx
  {
    if idx == |hs| then cur
    else
      var next := if Provided(u, hs[idx]) then SetCell(cur, i + 1, idx + 1, u[hs[idx]]) else cur;
      WriteCells(next, i, hs, u, idx + 1)
  }

  /** The grid after a (possibly aborted) forEach, and the error that
      aborted it. */
  datatype Applied = Applied(sheet: Table, failure: Option<DbError>)

  /** What holds of the grid when the forEach reaches data index k: every
      data row is wide enough for the headers, and rows k on are still as
      the snapshot shows them. */
  predicate LoopState(cur: Table, hs: seq<string>, snapshot: seq<Row>, k: nat) {
    |cur| == |snapshot| + 1 && k <= |snapshot|
    && (forall i | 1 <= i < |cur| :: |hs| <= |cur[i]|)
    && (forall i | k <= i < |snapshot| :: cur[i + 1] == snapshot[i])
  }

  /** One step of the forEach, written or not, keeps the loop state, and a
      written row k is the snapshot row rewritten. */
  lemma LoopStep(cur: Table, hs: seq<string>, snapshot: seq<Row>, u: Updates, k: nat)
    requires LoopState(cur, hs, snapshot, k) && k < |snapshot|
    ensures LoopState(cur, hs, snapshot, k + 1)
    ensures LoopState(WriteCells(cur, k + 1, hs, u, 0), hs, snapshot, k + 1)
    ensures WriteCells(cur, k + 1, hs, u, 0)[k + 1] == Rewrite(snapshot[k], hs, u)
  {
    var next := WriteCells(cur, k + 1, hs, u, 0);
    assert |next[k + 1]| == |snapshot[k]|;
    forall i | 1 <= i < |next|
      ensures |hs| <= |next[i]|
    {
      if i != k + 1 {
        assert next[i] == cur[i];
      }
    }
  }

  /** The update loop over the data rows from data index k on. Matching is
      judged on the snapshot rows read before the loop. */
  function UpdateFrom(cur: Table, hs: seq<string>, snapshot: seq<Row>, crit: seq<Criterion>,
                      u: Updates, k: nat): (r: Applied)
    requires LoopState(cur, hs, snapshot, k)
    ensures |r.sheet| == |cur| && forall i | 0 <= i < |cur| :: |r.sheet[i]| == |cur[i]|
    ensures forall i | 0 <= i <= k :: r.sheet[i] == cur[i]
    decreases |snapshot| - k
  {
    if k == |snapshot| then Applied(cur, None)
    else
      LoopStep(cur, hs, snapshot, u, k);
      match Matches(Materialize(hs, snapshot[k]), crit)
      case Err(e) => Applied(cur, Some(e))
      case Ok(hit) =>
        if hit then UpdateFrom(WriteCells(cur, k + 1, hs, u, 0), hs, snapshot, crit, u, k + 1)
        else UpdateFrom(cur, hs, snapshot, crit, u, k + 1)
  }

  /** The loop rewrites every matching row and leaves the others; it stops
      at the first row whose evaluation throws, and then nothing has been
      written: a filter that throws on some row matched no earlier one. */
  lemma UpdateFromSpec(cur: Table, hs: seq<string>, snapshot: seq<Row>, crit: seq<Criterion>,
                      u: Updates, k: nat)
    requires LoopState(cur, hs, snapshot, k)
    ensures UpdateFrom(cur, hs, snapshot, crit, u, k).failure.None? <==>
              forall i | k <= i < |snapshot| :: Matches(Materialize(hs, snapshot[i]), crit).Ok?
    ensures UpdateFrom(cur, hs, snapshot, crit, u, k).failure.None? ==>
              forall i | k <= i < |snapshot| ::
                UpdateFrom(cur, hs, snapshot, crit, u, k).sheet[i + 1]
                  == if Matches(Materialize(hs, snapshot[i]), crit) == Ok(true)
                     then Rewrite(snapshot[i], hs, u) else snapshot[i]
    ensures UpdateFrom(cur, hs, snapshot, crit, u, k).failure.Some? ==>
              exists i | k <= i < |snapshot| ::
                Matches(Materialize(hs, snapshot[i]), crit) == Err(UpdateFrom(cur, hs, snapshot, crit, u, k).failure.value)
                && forall j | k <= j < i :: Matches(Materialize(hs, snapshot[j]), crit).Ok?
    ensures UpdateFrom(cur, hs, snapshot, crit, u, k).failure.Some? ==> UpdateFrom(cur, hs, snapshot, crit, u, k).sheet == cur
  {
    UpdateFromOk(cur, hs, snapshot, crit, u, k);
    UpdateFromRows(cur, hs, snapshot, crit, u, k);
    UpdateFromFirstError(cur, hs, snapshot, crit, u, k);
    UpdateFromUntouched(cur, hs, snapshot, crit, u, k);
  }

  /** The loop runs to the end exactly when no row's evaluation throws. */
  lemma {:induction false} UpdateFromOk(cur: Table, hs: seq<string>, snapshot: seq<Row>, crit: seq<Criterion>,
                      u: Updates, k: nat)
    requires LoopState(cur, hs, snapshot, k)
    ensures UpdateFrom(cur, hs, snapshot, crit, u, k).failure.None? <==>
              forall i | k <= i < |snapshot| :: Matches(Materialize(hs, snapshot[i]), crit).Ok?
    decreases |snapshot| - k
  {
    if k < |snapshot| {
      LoopStep(cur, hs, snapshot, u, k);
      var m := Matches(Materialize(hs, snapshot[k]), crit);
      if m.Ok? {
        var next := if m.value then WriteCells(cur, k + 1, hs, u, 0) else cur;
        var r := UpdateFrom(next, hs, snapshot, crit, u, k + 1);
        assert UpdateFrom(cur, hs, snapshot, crit, u, k) == r;
        UpdateFromOk(next, hs, snapshot, crit, u, k + 1);
        if r.failure.None? {
          forall i | k <= i < |snapshot|
            ensures Matches(Materialize(hs, snapshot[i]), crit).Ok?
          {
            if i == k {
              assert m.Ok?;
            }
          }
        } else {
          var i :| k + 1 <= i < |snapshot| && !Matches(Materialize(hs, snapshot[i]), crit).Ok?;
        }
      }
    }
  }

  /** A loop that runs to the end rewrites exactly the matching rows. */
  lemma {:induction false} UpdateFromRows(cur: Table, hs: seq<string>, snapshot: seq<Row>, crit: seq<Criterion>,
                      u: Updates, k: nat)
    requires LoopState(cur, hs, snapshot, k)
    ensures UpdateFrom(cur, hs, snapshot, crit, u, k).failure.None? ==>
              forall i | k <= i < |snapshot| ::
                UpdateFrom(cur, hs, snapshot, crit, u, k).sheet[i + 1]
                  == if Matches(Materialize(hs, snapshot[i]), crit) == Ok(true)
                     then Rewrite(snapshot[i], hs, u) else snapshot[i]
    decreases |snapshot| - k
  {
    if k < |snapshot| {
      LoopStep(cur, hs, snapshot, u, k);
      var m := Matches(Materialize(hs, snapshot[k]), crit);
      if m.Ok? {
        var next := if m.value then WriteCells(cur, k + 1, hs, u, 0) else cur;
        assert next[k + 1] == if m == Ok(true) then Rewrite(snapshot[k], hs, u) else snapshot[k];
        var r := UpdateFrom(next, hs, snapshot, crit, u, k + 1);
        assert UpdateFrom(cur, hs, snapshot, crit, u, k) == r;
        UpdateFromRows(next, hs, snapshot, crit, u, k + 1);
        if r.failure.None? {
          forall i | k <= i < |snapshot|
            ensures r.sheet[i + 1] == if Matches(Materialize(hs, snapshot[i]), crit) == Ok(true)
                                      then Rewrite(snapshot[i], hs, u) else snapshot[i]
          {
            if i == k {
              assert r.sheet[k + 1] == next[k + 1];
            }
          }
        }
      }
    }
  }

  /** An aborted loop reports the error of the first row that throws. */
  lemma {:induction false} UpdateFromFirstError(cur: Table, hs: seq<string>, snapshot: seq<Row>, crit: seq<Criterion>,
                      u: Updates, k: nat)
    requires LoopState(cur, hs, snapshot, k)
    ensures UpdateFrom(cur, hs, snapshot, crit, u, k).failure.Some? ==>
              exists i | k <= i < |snapshot| ::
                Matches(Materialize(hs, snapshot[i]), crit) == Err(UpdateFrom(cur, hs, snapshot, crit, u, k).failure.value)
                && forall j | k <= j < i :: Matches(Materialize(hs, snapshot[j]), crit).Ok?
    decreases |snapshot| - k
  {
    if k < |snapshot| {
      LoopStep(cur, hs, snapshot, u, k);
      var m := Matches(Materialize(hs, snapshot[k]), crit);
      if m.Ok? {
        var next := if m.value then WriteCells(cur, k + 1, hs, u, 0) else cur;
        var r := UpdateFrom(next, hs, snapshot, crit, u, k + 1);
        assert UpdateFrom(cur, hs, snapshot, crit, u, k) == r;
        UpdateFromFirstError(next, hs, snapshot, crit, u, k + 1);
        if r.failure.Some? {
          var i :| k + 1 <= i < |snapshot| && Matches(Materialize(hs, snapshot[i]), crit) == Err(r.failure.value)
                   && forall j | k + 1 <= j < i :: Matches(Materialize(hs, snapshot[j]), crit).Ok?;
          assert Matches(Materialize(hs, snapshot[k]), crit).Ok?;
        }
      }
    }
  }

  /** An aborted loop has written nothing. */
  lemma {:induction false} UpdateFromUntouched(cur: Table, hs: seq<string>, snapshot: seq<Row>, crit: seq<Criterion>,
                      u: Updates, k: nat)
    requires LoopState(cur, hs, snapshot, k)
    ensures UpdateFrom(cur, hs, snapshot, crit, u, k).failure.Some? ==> UpdateFrom(cur, hs, snapshot, crit, u, k).sheet == cur
    decreases |snapshot| - k
  {
    if k < |snapshot| {
      LoopStep(cur, hs, snapshot, u, k);
      var m := Matches(Materialize(hs, snapshot[k]), crit);
      if m.Ok? {
        if m.value {
          MatchMeansNoError(Materialize(hs, snapshot[k]), crit);
          UpdateFromOk(WriteCells(cur, k + 1, hs, u, 0), hs, snapshot, crit, u, k + 1);
        } else {
          UpdateFromUntouched(cur, hs, snapshot, crit, u, k + 1);
        }
      }
    }
  }

  /** A rectangular grid is a valid state for the loop to start from. */
  lemma LoopStart(t: Table)
    requires Rectangular(t) && |t| > 0
    ensures LoopState(t, Headers(t), t[1..], 0)
  {
  }

  /** updateEntries on one grid. */
  function UpdateSheet(t: Table, crit: seq<Criterion>, u: Updates): (r: Applied)
    requires Rectangular(t)
    ensures |r.sheet| == |t| && Rectangular(r.sheet) && HeaderPart(r.sheet) == HeaderPart(t)
    ensures r.failure.Some? ==> r.sheet == t
  {
    if |t| == 0 then Applied(t, None)
    else
      LoopStart(t);
      UpdateFromUntouched(t, Headers(t), t[1..], crit, u, 0);
      var r := UpdateFrom(t, Headers(t), t[1..], crit, u, 0);
      assert forall i | 0 <= i < |t| :: |r.sheet[i]| == |t[i]|;
      r
  }

  /** The update fails exactly when getEntries with the same filter fails,
      and then nothing has been written. */
  lemma UpdateSheetFails(t: Table, crit: seq<Criterion>, u: Updates)
    requires Rectangular(t)
    ensures UpdateSheet(t, crit, u).failure.None? <==> FilterEntries(EntriesOf(t), crit).Ok?
  {
    var es := EntriesOf(t);
    FilterEntriesOk(es, crit);
    if |t| > 0 {
      var hs := Headers(t);
      var snap := t[1..];
      UpdateSheetUnfold(t, crit, u);
      EntriesOfRows(t);
      UpdateFromOk(t, hs, snap, crit, u, 0);
      if UpdateSheet(t, crit, u).failure.None? {
        forall i | 0 <= i < |es|
          ensures Matches(es[i], crit).Ok?
        {
          assert Matches(Materialize(hs, snap[i]), crit).Ok?;
        }
      } else {
        var i :| 0 <= i < |snap| && !Matches(Materialize(hs, snap[i]), crit).Ok?;
        assert !Matches(es[i], crit).Ok?;
      }
    }
  }

  /** A non-empty grid is updated by running the loop over its data rows. */
  lemma UpdateSheetUnfold(t: Table, crit: seq<Criterion>, u: Updates)
    requires Rectangular(t) && |t| > 0
    ensures UpdateSheet(t, crit, u) == UpdateFrom(t, Headers(t), t[1..], crit, u, 0)
  {
  }

  /** Entry i is data row i materialised against the header row. */
  lemma EntriesOfRows(t: Table)
    requires |t| > 0
    ensures |EntriesOf(t)| == |t| - 1
    ensures forall i | 0 <= i < |t| - 1 :: EntriesOf(t)[i] == Materialize(Headers(t), t[1..][i])
  {
  }

  /** On success every matching data row is rewritten and every other row
      is untouched. */
  lemma UpdateSheetSpec(t: Table, crit: seq<Criterion>, u: Updates)
    requires Rectangular(t)
    ensures UpdateSheet(t, crit, u).failure.None? <==> FilterEntries(EntriesOf(t), crit).Ok?
    ensures UpdateSheet(t, crit, u).failure.None? ==>
              forall i | 0 <= i < |DataRows(t)| ::
                DataRows(UpdateSheet(t, crit, u).sheet)[i]
                  == if Matches(EntriesOf(t)[i], crit) == Ok(true)
                     then Rewrite(DataRows(t)[i], Headers(t), u) else DataRows(t)[i]
  {
    UpdateSheetFails(t, crit, u);
    if |t| > 0 {
      var r := UpdateFrom(t, Headers(t), t[1..], crit, u, 0);
      UpdateFromSpec(t, Headers(t), t[1..], crit, u, 0);
      assert UpdateSheet(t, crit, u) == r;
      var es := EntriesOf(t);
      if r.failure.None? {
        forall i | 0 <= i < |DataRows(t)|
          ensures DataRows(r.sheet)[i] == if Matches(es[i], crit) == Ok(true)
                                          then Rewrite(DataRows(t)[i], Headers(t), u) else DataRows(t)[i]
        {
          assert es[i] == Materialize(Headers(t), t[1..][i]);
          assert DataRows(r.sheet)[i] == r.sheet[i + 1];
        }
      }
    }
  }

  /** What a re-read shows after the update: on a rewritten row every key
      with a provided value holds that value and every other key is as
      before. */
  lemma RewriteEntry(hs: seq<string>, row: Row, u: Updates)
    requires |hs| <= |row|
    ensures Materialize(hs, Rewrite(row, hs, u)).Keys == Materialize(hs, row).Keys
    ensures forall k | k in Materialize(hs, row) ::
              Materialize(hs, Rewrite(row, hs, u))[k] == if Provided(u, k) then u[k] else Materialize(hs, row)[k]
  {
    var row' := Rewrite(row, hs, u);
    MaterializeSpec(hs, row);
    MaterializeSpec(hs, row');
    forall k | k in Materialize(hs, row)
      ensures Materialize(hs, row')[k] == if Provided(u, k) then u[k] else Materialize(hs, row)[k]
    {
      assert k in hs;
      MaterializeGet(hs, row, k);
      MaterializeGet(hs, row', k);
    }
  }

  /** Re-reading a sheet after a successful update: on every entry that
      matched, a key with a provided value holds that value and every other
      key holds what it held before. */
  lemma UpdateSheetReread(t: Table, crit: seq<Criterion>, u: Updates)
    requires Rectangular(t)
    requires UpdateSheet(t, crit, u).failure.None?
    ensures forall i, k | 0 <= i < |EntriesOf(t)| && Matches(EntriesOf(t)[i], crit) == Ok(true) && k in EntriesOf(t)[i] ::
              k in EntriesOf(UpdateSheet(t, crit, u).sheet)[i]
              && EntriesOf(UpdateSheet(t, crit, u).sheet)[i][k]
                   == if Provided(u, k) then u[k] else EntriesOf(t)[i][k]
  {
    forall i | 0 <= i < |EntriesOf(t)| && Matches(EntriesOf(t)[i], crit) == Ok(true)
      ensures forall k | k in EntriesOf(t)[i] ::
                k in EntriesOf(UpdateSheet(t, crit, u).sheet)[i]
                && EntriesOf(UpdateSheet(t, crit, u).sheet)[i][k]
                     == if Provided(u, k) then u[k] else EntriesOf(t)[i][k]
    {
      UpdatedRowEntry(t, crit, u, i);
      assert t[i + 1] == DataRows(t)[i];
      RewriteEntry(Headers(t), DataRows(t)[i], u);
    }
  }

  /** One matching data row, re-read after the update, is the rewritten row. */
  lemma UpdatedRowEntry(t: Table, crit: seq<Criterion>, u: Updates, i: int)
    requires Rectangular(t)
    requires UpdateSheet(t, crit, u).failure.None?
    requires 0 <= i < |EntriesOf(t)| && Matches(EntriesOf(t)[i], crit) == Ok(true)
    ensures i < |EntriesOf(UpdateSheet(t, crit, u).sheet)|
    ensures EntriesOf(UpdateSheet(t, crit, u).sheet)[i] == Materialize(Headers(t), Rewrite(DataRows(t)[i], Headers(t), u))
  {
    var t' := UpdateSheet(t, crit, u).sheet;
    UpdateSheetSpec(t, crit, u);
    var row := DataRows(t)[i];
    assert DataRows(t')[i] == Rewrite(row, Headers(t), u);
    assert t'[0] == HeaderPart(t')[0] == HeaderPart(t)[0] == t[0];
    assert Headers(t') == Headers(t);
  }

  function ProjectAll(es: seq<Entry>, ks: seq<string>): seq<Entry> {
    seq(|es|, i requires 0 <= i < |es| => Project(es[i], ks))
  }

  /** Every projected entry has exactly the requested keys. */
  lemma ProjectAllKeys(es: seq<Entry>, ks: seq<string>)
    ensures forall e | e in ProjectAll(es, ks) :: e.Keys == set j | 0 <= j < |ks| :: ks[j]
  {
    forall e | e in ProjectAll(es, ks)
      ensures e.Keys == set j | 0 <= j < |ks| :: ks[j]
    {
      var i :| 0 <= i < |es| && ProjectAll(es, ks)[i] == e;
      ProjectSpec(es[i], ks);
    }
  }

  /** getEntries on one grid: materialise, filter if a filter is given,
      project if keys are given. Only the filter can fail. */
  function SelectEntries(t: Table, crit: Option<seq<Criterion>>, proj: Option<seq<string>>): (r: Result<seq<Entry>>)
    ensures r.Err? ==> crit.Some?
    ensures r.Ok? ==> |r.value| <= |DataRows(t)|
    ensures crit.None? ==> r.Ok? && |r.value| == |DataRows(t)|
  {
    var all := EntriesOf(t);
    var filtered :- if crit.Some? then FilterEntries(all, crit.value) else Ok(all);
    Ok(if proj.Some? then ProjectAll(filtered, proj.value) else filtered)
  }
}
