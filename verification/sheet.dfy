/** The backing sheet as its grid of values (`getDataRange().getValues()`),
    with the row-level store primitives the engine calls. Positions are
    1-based, as in the spreadsheet: position 1 is the header row. */
module Sheet {
  import opened Values

  type Table = seq<Row>

  /** Entry keys of the columns: the header cells as property keys. A grid
      with no rows has no headers. */
  function Headers(t: Table): (hs: seq<string>)
    ensures |t| > 0 ==> |hs| == |t[0]|
  {
    if |t| == 0 then [] else seq(|t[0]|, i requires 0 <= i < |t[0]| => KeyOf(t[0][i]))
  }

  /** The rows after the header row (`data.shift()` removed the header). */
  function DataRows(t: Table): seq<Row> {
    if |t| == 0 then [] else t[1..]
  }

  /** The header row as a (possibly empty) prefix of the grid. */
  function HeaderPart(t: Table): (h: seq<Row>)
    ensures h + DataRows(t) == t
  {
    if |t| == 0 then [] else [t[0]]
  }

  function Width(t: Table): nat {
    if |t| == 0 then 0 else |t[0]|
  }

  /** A grid as the host returns it: every row as wide as the header row. */
  predicate Rectangular(t: Table) {
    forall i | 0 <= i < |t| :: |t[i]| == Width(t)
  }

  /** `sheet.deleteRow(p)`: the row at position p goes, the rows below it
      move up by one. */
  function DeleteRow(t: Table, p: nat): (r: Table)
    requires 1 <= p <= |t|
    ensures |r| == |t| - 1
    ensures forall i | 0 <= i < p - 1 :: r[i] == t[i]
    ensures forall i | p - 1 <= i < |r| :: r[i] == t[i + 1]
  {
    t[..p - 1] + t[p..]
  }

  /** `sheet.getRange(p, c).setValue(v)`: overwrites one cell. */
  function SetCell(t: Table, p: nat, c: nat, v: Value): (r: Table)
    requires 1 <= p <= |t| && 1 <= c <= |t[p - 1]|
    ensures |r| == |t| && |r[p - 1]| == |t[p - 1]|
    ensures forall i | 0 <= i < |t| && i != p - 1 :: r[i] == t[i]
    ensures r[p - 1] == t[p - 1][c - 1 := v]
  {
    t[p - 1 := t[p - 1][c - 1 := v]]
  }

  /** A value as a cell keeps it: the host writes undefined as an empty
      cell, which reads back as "". */
  function Stored(v: Value): (s: Value)
    ensures s != VNone
    ensures v != VNone ==> s == v
  {
    if v.VNone? then VStr("") else v
  }

  /** The values of a row as the cells keep them. */
  function StoredRow(data: Row): (r: Row)
    ensures |r| == |data|
    ensures forall j | 0 <= j < |data| :: r[j] == Stored(data[j])
  {
    seq(|data|, j requires 0 <= j < |data| => Stored(data[j]))
  }

  /** A row with no undefined value, as every row read from a sheet is. */
  predicate Defined(row: Row) {
    forall j | 0 <= j < |row| :: row[j] != VNone
  }

  /** A row with no undefined value is kept as it is. */
  lemma StoredDefined(row: Row)
    requires Defined(row)
    ensures StoredRow(row) == row
  {
  }

  /** A row widened to w columns with empty cells. */
  function Pad(row: Row, w: nat): Row {
    if |row| >= w then row else row + seq(w - |row|, _ => VStr(""))
  }

  /** `sheet.appendRow(data)` as seen through the data range: the new row
      goes below the last one, an undefined value leaving its cell empty,
      and the grid stays rectangular, empty cells reading as "" wherever the
      new row is shorter or longer than the rest. */
  function AppendRow(t: Table, data: Row): (r: Table)
    ensures |r| == |t| + 1
    ensures Rectangular(t) ==> Rectangular(r)
    ensures Width(r) == if Width(t) >= |data| then Width(t) else |data|
    ensures Rectangular(t) ==>
              forall i, j | 0 <= i < |t| && 0 <= j < Width(r) ::
                r[i][j] == if j < |t[i]| then t[i][j] else VStr("")
    ensures |r[|t|]| == Width(r)
    ensures forall j | 0 <= j < Width(r) ::
              r[|t|][j] == if j < |data| then Stored(data[j]) else VStr("")
    ensures Defined(r[|t|])
  {
    var w := if Width(t) >= |data| then Width(t) else |data|;
    var r := seq(|t|, i requires 0 <= i < |t| => Pad(t[i], w)) + [Pad(StoredRow(data), w)];
    assert |r[|t|]| == w && Width(r) == w;
    r
  }

  /** The first row appended to an empty grid is the whole grid. */
  lemma AppendToEmpty(data: Row)
    ensures AppendRow([], data) == [StoredRow(data)]
  {
    assert AppendRow([], data)[0] == StoredRow(data);
  }

  /** Appending a row exactly as wide as a rectangular grid adds that row,
      as its cells keep it, and changes nothing else. */
  lemma AppendFullRow(t: Table, data: Row)
    requires Rectangular(t) && |t| > 0 && |data| == Width(t)
    ensures AppendRow(t, data) == t + [StoredRow(data)]
  {
    var r := AppendRow(t, data);
    forall i | 0 <= i < |t|
      ensures r[i] == t[i]
    {
      assert |r[i]| == |t[i]|;
    }
    assert r[|t|] == StoredRow(data);
  }
}
