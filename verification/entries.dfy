/** Entries: the header-to-value objects built from one row, and their
    projection onto a list of keys. */
module Entries {
  import opened Values

  /** A plain object mapping header names to cell values. */
  type Entry = map<string, Value>

  /** `entry[key]`: a missing key reads as undefined. */
  function Get(e: Entry, k: string): Value {
    if k in e then e[k] else VNone
  }

  /** `row[i]`: reading past the end of a short row yields undefined. */
  function Cell(row: Row, i: nat): Value {
    if i < |row| then row[i] else VNone
  }

  /** Position i holds the last occurrence of its header name. */
  predicate LastOccurrence(hs: seq<string>, i: nat)
    requires i < |hs|
  {
    forall j | i < j < |hs| :: hs[j] != hs[i]
  }

  predicate Distinct(hs: seq<string>) {
    forall i, j | 0 <= i < j < |hs| :: hs[i] != hs[j]
  }

  /** The entry of one row: a fold over the headers from left to right that
      sets each header's key to the cell in the same column, so a later
      header with the same name overwrites an earlier one. */
  function Materialize(hs: seq<string>, row: Row): Entry
    decreases |hs|
  {
    if |hs| == 0 then map[]
    else Materialize(hs[..|hs| - 1], row)[hs[|hs| - 1] := Cell(row, |hs| - 1)]
  }

  /** Every header becomes a key, and for a repeated header the value at
      its last position wins. */
  lemma MaterializeSpec(hs: seq<string>, row: Row)
    ensures Materialize(hs, row).Keys == set i | 0 <= i < |hs| :: hs[i]
    ensures forall i | 0 <= i < |hs| && LastOccurrence(hs, i) :: Materialize(hs, row)[hs[i]] == Cell(row, i)
  {
    MaterializeKeys(hs, row);
    MaterializeValues(hs, row);
  }

  lemma {:induction false} MaterializeKeys(hs: seq<string>, row: Row)
    ensures Materialize(hs, row).Keys == set i | 0 <= i < |hs| :: hs[i]
    decreases |hs|
  {
    if |hs| > 0 {
      var p := hs[..|hs| - 1];
      MaterializeKeys(p, row);
      var all := set i | 0 <= i < |hs| :: hs[i];
      var front := set i | 0 <= i < |p| :: p[i];
      forall x | x in all
        ensures x in front + {hs[|hs| - 1]}
      {
        var i :| 0 <= i < |hs| && hs[i] == x;
        if i < |hs| - 1 {
          assert p[i] == x;
        }
      }
      forall x | x in front
        ensures x in all
      {
        var i :| 0 <= i < |p| && p[i] == x;
        assert hs[i] == x;
      }
      assert all == front + {hs[|hs| - 1]};
    }
  }

  lemma {:induction false} MaterializeValues(hs: seq<string>, row: Row)
    ensures forall i | 0 <= i < |hs| && LastOccurrence(hs, i) ::
              hs[i] in Materialize(hs, row) && Materialize(hs, row)[hs[i]] == Cell(row, i)
    decreases |hs|
  {
    if |hs| > 0 {
      var p := hs[..|hs| - 1];
      MaterializeValues(p, row);
      forall i | 0 <= i < |hs| - 1 && LastOccurrence(hs, i)
        ensures LastOccurrence(p, i)
      {
        assert forall j | i < j < |p| :: p[j] == hs[j];
      }
    }
  }

  /** Index of the last occurrence of key k among the headers. */
  function LastIndex(hs: seq<string>, k: string): (i: nat)
    requires k in hs
    ensures i < |hs| && hs[i] == k && LastOccurrence(hs, i)
    decreases |hs|
  {
    if hs[|hs| - 1] == k then |hs| - 1
    else
      assert k in hs[..|hs| - 1] by {
        var j :| 0 <= j < |hs| && hs[j] == k;
        assert j < |hs| - 1 && hs[..|hs| - 1][j] == k;
      }
      LastIndex(hs[..|hs| - 1], k)
  }

  /** Every key of a materialised entry holds the cell under the last
      header of that name. */
  lemma MaterializeGet(hs: seq<string>, row: Row, k: string)
    requires k in hs
    ensures k in Materialize(hs, row)
    ensures Materialize(hs, row)[k] == Cell(row, LastIndex(hs, k))
  {
    var i := LastIndex(hs, k);
    MaterializeSpec(hs, row);
  }

  /** Reads the cells of an entry back in header order. */
  function Unzip(hs: seq<string>, e: Entry): Row {
    seq(|hs|, i requires 0 <= i < |hs| => Get(e, hs[i]))
  }

  /** With distinct headers, materialising a full row loses nothing: reading
      the entry back in header order gives the row again. */
  lemma UnzipMaterialize(hs: seq<string>, row: Row)
    requires Distinct(hs) && |row| == |hs|
    ensures Unzip(hs, Materialize(hs, row)) == row
  {
    var e := Materialize(hs, row);
    MaterializeSpec(hs, row);
    forall i | 0 <= i < |hs|
      ensures Unzip(hs, e)[i] == row[i]
    {
      assert LastOccurrence(hs, i);
      assert hs[i] in e.Keys;
    }
  }

  /** The projection of an entry: a fold over the requested keys that copies
      each key's value from the entry, undefined when the entry lacks it. */
  function Project(e: Entry, ks: seq<string>): Entry
    decreases |ks|
  {
    if |ks| == 0 then map[]
    else Project(e, ks[..|ks| - 1])[ks[|ks| - 1] := Get(e, ks[|ks| - 1])]
  }

  /** A projection has exactly the requested keys, each holding the source
      entry's value (undefined when the source lacks the key). */
  lemma {:induction false} ProjectSpec(e: Entry, ks: seq<string>)
    ensures Project(e, ks).Keys == set i | 0 <= i < |ks| :: ks[i]
    ensures forall k | k in Project(e, ks) :: Project(e, ks)[k] == Get(e, k)
    decreases |ks|
  {
    if |ks| > 0 {
      var prefix := ks[..|ks| - 1];
      ProjectSpec(e, prefix);
      assert forall i | 0 <= i < |ks| - 1 :: ks[i] == prefix[i];
      assert (set i | 0 <= i < |ks| :: ks[i]) == (set i | 0 <= i < |prefix| :: prefix[i]) + {ks[|ks| - 1]};
    }
  }

  /** A requested key of a projection of one entry laid over another holds
      the upper entry's value when it has that key, else the lower one's. */
  lemma ProjectOverlay(a: Entry, b: Entry, ks: seq<string>, k: string)
    requires k in ks
    ensures Get(Project(a + b, ks), k) == if k in b then b[k] else Get(a, k)
  {
    ProjectSpec(a + b, ks);
    var n :| 0 <= n < |ks| && ks[n] == k;
  }
}
