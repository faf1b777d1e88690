/** The pieces of joinTables: qualified header names, the first-match
    lookup in the right table and the overlay of two entries. */
module Join {
  import opened Results
  import opened Values
  import opened Entries

  /** Position of the first '.' in s. */
  function FirstDot(s: string): (i: nat)
    requires '.' in s
    ensures i < |s| && s[i] == '.' && '.' !in s[..i]
    decreases |s|
  {
    if s[0] == '.' then 0
    else
      assert '.' in s[1..] by {
        var j :| 0 <= j < |s| && s[j] == '.';
        assert s[1..][j - 1] == '.';
      }
      var k := FirstDot(s[1..]);
      assert s[..k + 1] == [s[0]] + s[1..][..k];
      k + 1
  }

  /** The pieces joined back with '.' between them. */
  function JoinDots(parts: seq<string>): string
    requires |parts| >= 1
    decreases |parts|
  {
    if |parts| == 1 then parts[0] else parts[0] + "." + JoinDots(parts[1..])
  }

  /** Splitting at every dot: the maximal dot-free pieces, left to right. Joining
      them with '.' gives s back, and there are several pieces exactly when
      s contains a dot. */
  function Split(s: string): (parts: seq<string>)
    ensures |parts| >= 1
    ensures forall i | 0 <= i < |parts| :: '.' !in parts[i]
    ensures JoinDots(parts) == s
    ensures |parts| > 1 <==> '.' in s
    decreases |s|
  {
    if '.' !in s then [s]
    else
      var i := FirstDot(s);
      var rest := Split(s[i + 1..]);
      assert s == s[..i] + "." + s[i + 1..];
      [s[..i]] + rest
  }

  /** Splitting dot-free pieces joined with '.' gives the pieces back. */
  lemma {:induction false} SplitJoinDots(parts: seq<string>)
    requires |parts| >= 1 && forall i | 0 <= i < |parts| :: '.' !in parts[i]
    ensures Split(JoinDots(parts)) == parts
    decreases |parts|
  {
    if |parts| > 1 {
      var s := JoinDots(parts);
      var p0 := parts[0];
      var tail := JoinDots(parts[1..]);
      assert s == p0 + "." + tail;
      assert s[..|p0|] == p0 && s[|p0|] == '.';
      FirstDotAt(s, |p0|);
      assert s[|p0| + 1..] == tail;
      SplitJoinDots(parts[1..]);
    }
  }

  /** A '.' with no '.' before it is the first one. */
  lemma FirstDotAt(s: string, n: nat)
    requires n < |s| && s[n] == '.' && '.' !in s[..n]
    ensures '.' in s && FirstDot(s) == n
  {
  }

  /** The piece after the first dot and before any second one; None stands
      for undefined, when there is no dot. */
  function SecondPiece(h: string): Option<string> {
    var parts := Split(h);
    if |parts| > 1 then Some(parts[1]) else None
  }

  /** The property key of a possibly undefined name: `obj[undefined]` is
      `obj["undefined"]`. */
  function PropertyKey(name: Option<string>): string {
    match name
    case None => "undefined"
    case Some(k) => k
  }

  /** A qualified header `t.c` of a table t whose name has no dot. */
  lemma SecondPieceOfQualified(table: string, column: string)
    requires '.' !in table && '.' !in column
    ensures SecondPiece(table + "." + column) == Some(column)
  {
    SplitJoinDots([table, column]);
    assert JoinDots([table, column]) == table + "." + JoinDots([column]);
  }

  /** An unqualified header keeps no column name: it projects onto the key
      "undefined". */
  lemma UnqualifiedKey(h: string)
    requires '.' !in h
    ensures PropertyKey(SecondPiece(h)) == "undefined"
  {
  }

  /** The columns a header list asks of one table: of the headers that start
      with the table name and a dot, the piece after that dot, in order. */
  function SideColumns(hs: seq<string>, table: string): (r: seq<string>)
    ensures |r| <= |hs|
    ensures forall j | 0 <= j < |hs| && table + "." <= hs[j] ::
              SecondPiece(hs[j]).Some? && SecondPiece(hs[j]).value in r
    ensures forall c | c in r ::
              exists j | 0 <= j < |hs| :: table + "." <= hs[j] && SecondPiece(hs[j]) == Some(c)
    decreases |hs|
  {
    if |hs| == 0 then []
    else
      var rest := SideColumns(hs[1..], table);
      assert forall j | 1 <= j < |hs| :: hs[j] == hs[1..][j - 1];
      if table + "." <= hs[0] then
        assert hs[0][|table|] == '.';
        [Split(hs[0])[1]] + rest
      else
        rest
  }

  /** The first entry whose value under key is strictly equal to v, if any. */
  function FindFirst(es: seq<Entry>, key: string, v: Value): (r: Option<Entry>)
    ensures r.None? <==> forall i | 0 <= i < |es| :: Get(es[i], key) != v
    ensures r.Some? ==>
              exists i | 0 <= i < |es| ::
                es[i] == r.value && Get(es[i], key) == v && forall j | 0 <= j < i :: Get(es[j], key) != v
    decreases |es|
  {
    if |es| == 0 then None
    else if Get(es[0], key) == v then Some(es[0])
    else
      var r := FindFirst(es[1..], key, v);
      assert forall i | 1 <= i < |es| :: es[i] == es[1..][i - 1];
      if r.Some? then
        var i :| 0 <= i < |es[1..]| && es[1..][i] == r.value && Get(es[1..][i], key) == v
                 && forall j | 0 <= j < i :: Get(es[1..][j], key) != v;
        assert es[i + 1] == r.value;
        r
      else r
  }

  /** The left entry with the right one laid over it, the right side winning
      on shared keys; a missing right entry adds nothing. */
  function Overlay(left: Entry, right: Option<Entry>): Entry {
    match right
    case None => left
    case Some(e) => left + e
  }

  /** The map step of joinTables: every left entry overlaid with its first
      match on the join key. */
  function JoinEntries(left: seq<Entry>, right: seq<Entry>, key: string): seq<Entry> {
    seq(|left|, i requires 0 <= i < |left| => Overlay(left[i], FindFirst(right, key, Get(left[i], key))))
  }

  /** The keys of the final projection: the second piece of every header,
      in order. */
  function SelectedKeys(hs: seq<string>): seq<string> {
    seq(|hs|, i requires 0 <= i < |hs| => PropertyKey(SecondPiece(hs[i])))
  }

  /** The keys selected are the property keys of the headers' second pieces. */
  lemma SelectedKeysSet(hs: seq<string>)
    ensures (set j | 0 <= j < |SelectedKeys(hs)| :: SelectedKeys(hs)[j])
            == set j | 0 <= j < |hs| :: PropertyKey(SecondPiece(hs[j]))
  {
    var ks := SelectedKeys(hs);
    var want := set j | 0 <= j < |hs| :: PropertyKey(SecondPiece(hs[j]));
    forall k | k in want
      ensures k in set j | 0 <= j < |ks| :: ks[j]
    {
      var j :| 0 <= j < |hs| && k == PropertyKey(SecondPiece(hs[j]));
      assert ks[j] == k;
    }
  }

  /** One joined entry per left entry, in left order. A left entry with no
      match stays as it is; otherwise it is overlaid with the first right
      entry whose key value is strictly equal, the right side winning on
      shared keys. The join key's value is always that of the left entry. */
  lemma JoinEntriesSpec(left: seq<Entry>, right: seq<Entry>, key: string)
    ensures |JoinEntries(left, right, key)| == |left|
    ensures forall i | 0 <= i < |left| ::
              (forall j | 0 <= j < |right| :: Get(right[j], key) != Get(left[i], key))
              ==> JoinEntries(left, right, key)[i] == left[i]
    ensures forall i, j | 0 <= i < |left| && 0 <= j < |right| ::
              Get(right[j], key) == Get(left[i], key)
              && (forall j' | 0 <= j' < j :: Get(right[j'], key) != Get(left[i], key))
              ==> JoinEntries(left, right, key)[i] == left[i] + right[j]
    ensures forall i | 0 <= i < |left| :: Get(JoinEntries(left, right, key)[i], key) == Get(left[i], key)
  {
    var r := JoinEntries(left, right, key);
    forall i, j | 0 <= i < |left| && 0 <= j < |right|
                  && Get(right[j], key) == Get(left[i], key)
                  && (forall j' | 0 <= j' < j :: Get(right[j'], key) != Get(left[i], key))
      ensures r[i] == left[i] + right[j]
    {
      var m := FindFirst(right, key, Get(left[i], key));
      var k :| 0 <= k < |right| && right[k] == m.value && Get(right[k], key) == Get(left[i], key)
               && forall j' | 0 <= j' < k :: Get(right[j'], key) != Get(left[i], key);
    }
    forall i | 0 <= i < |left|
      ensures Get(r[i], key) == Get(left[i], key)
    {
      var m := FindFirst(right, key, Get(left[i], key));
      if m.Some? {
        var k :| 0 <= k < |right| && right[k] == m.value && Get(right[k], key) == Get(left[i], key);
      }
    }
  }
}
