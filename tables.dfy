/**
 * Tables loaded from CSV files, as the application sees them after loading:
 * a header of column names and rows of string cells. This module gives the
 * three table operations the application uses: looking a column up by name,
 * the equality filter on one column (row positions in table order),
 * and reading out one column or the row-major flattening of a column range.
 */
module Tables {

  datatype Table = Table(header: seq<string>, rows: seq<seq<string>>)

  /** No element occurs twice. */
  predicate Distinct<T(==)>(s: seq<T>) {
    forall i, j :: 0 <= i < j < |s| ==> s[i] != s[j]
  }

  /** A table as the CSV reader produces it: column names are unique
      (duplicates are renamed on load) and every row is as wide as the header. */
  predicate WellFormed(t: Table) {
    && Distinct(t.header)
    && forall r :: r in t.rows ==> |r| == |t.header|
  }

  /** Position of the column called `name`: the first one in the header. */
  function ColumnIndex(header: seq<string>, name: string): (k: nat)
    requires name in header
    ensures k < |header| && header[k] == name
    ensures forall j :: 0 <= j < k ==> header[j] != name
  {
    if header[0] == name then 0 else 1 + ColumnIndex(header[1..], name)
  }

  /** The row has a cell in column `k` and that cell equals `key`. */
  predicate Matches(row: seq<string>, k: nat, key: string) {
    k < |row| && row[k] == key
  }

  /** `idx` lists, in increasing order, exactly the positions of the rows
      whose column `k` equals `key`. */
  predicate Enumerates(rows: seq<seq<string>>, k: nat, key: string, idx: seq<nat>) {
    && (forall j :: 0 <= j < |idx| ==> idx[j] < |rows| && Matches(rows[idx[j]], k, key))
    && (forall j, j' :: 0 <= j < j' < |idx| ==> idx[j] < idx[j'])
    && (forall i :: 0 <= i < |rows| && Matches(rows[i], k, key) ==> i in idx)
  }

  /** Positions of the rows whose column `k` equals `key`: the rows the
      equality mask on column `k` keeps. */
  function MatchIndices(rows: seq<seq<string>>, k: nat, key: string): (idx: seq<nat>)
    ensures Enumerates(rows, k, key, idx)
  {
    if rows == [] then []
    else
      var n := |rows| - 1;
      var prefix := MatchIndices(rows[..n], k, key);
      assert forall i :: 0 <= i < n ==> rows[..n][i] == rows[i];
      prefix + (if Matches(rows[n], k, key) then [n] else [])
  }

  /** Two increasing sequences with the same elements are equal. */
  lemma {:induction false} IncreasingUnique(a: seq<nat>, b: seq<nat>)
    requires forall j, j' :: 0 <= j < j' < |a| ==> a[j] < a[j']
    requires forall j, j' :: 0 <= j < j' < |b| ==> b[j] < b[j']
    requires forall x :: x in a <==> x in b
    ensures a == b
  {
    assert a != [] ==> a[0] in b;
    assert b != [] ==> b[0] in a;
    if a != [] && b != [] {
      assert a[0] == b[0] by {
        var i :| 0 <= i < |a| && a[i] == b[0];
        var j :| 0 <= j < |b| && b[j] == a[0];
      }
      assert a == [a[0]] + a[1..] && b == [b[0]] + b[1..];
      forall x ensures x in a[1..] <==> x in b[1..] {
        if x in a[1..] {
          var i :| 0 <= i < |a[1..]| && a[1..][i] == x;
          assert a[i + 1] == x && x in b;
        }
        if x in b[1..] {
          var j :| 0 <= j < |b[1..]| && b[1..][j] == x;
          assert b[j + 1] == x && x in a;
        }
      }
      IncreasingUnique(a[1..], b[1..]);
    }
  }

  /** There is only one way to list the matching rows in increasing order, so
      every such listing is the one the filter computes. */
  lemma EnumerationUnique(rows: seq<seq<string>>, k: nat, key: string, idx: seq<nat>)
    requires Enumerates(rows, k, key, idx)
    ensures idx == MatchIndices(rows, k, key)
  {
    var m := MatchIndices(rows, k, key);
    forall x ensures x in idx <==> x in m {
      if x in idx {
        var j :| 0 <= j < |idx| && idx[j] == x;
      }
      if x in m {
        var j :| 0 <= j < |m| && m[j] == x;
      }
    }
    IncreasingUnique(idx, m);
  }

  /** Cells of column `c` of the rows at positions `idx`, in that order. */
  function Project(rows: seq<seq<string>>, idx: seq<nat>, c: nat): (r: seq<string>)
    requires forall j :: 0 <= j < |idx| ==> idx[j] < |rows| && c < |rows[idx[j]]|
    ensures |r| == |idx|
    ensures forall j :: 0 <= j < |idx| ==> r[j] == rows[idx[j]][c]
  {
    if idx == [] then [] else [rows[idx[0]][c]] + Project(rows, idx[1..], c)
  }

  /** Concatenation of the cells from column `from` on of the rows at
      positions `idx`, row after row. */
  function FlattenFrom(rows: seq<seq<string>>, idx: seq<nat>, from: nat): seq<string>
    requires forall j :: 0 <= j < |idx| ==> idx[j] < |rows| && from <= |rows[idx[j]]|
  {
    if idx == [] then [] else rows[idx[0]][from..] + FlattenFrom(rows, idx[1..], from)
  }

  /** Row `i` of `t` holds `key` in the column called `column`. */
  predicate RowHas(t: Table, i: nat, column: string, key: string)
    requires column in t.header && i < |t.rows|
  {
    Matches(t.rows[i], ColumnIndex(t.header, column), key)
  }

  /** The cell of row `i` in the column called `column`. */
  function Cell(t: Table, i: nat, column: string): string
    requires WellFormed(t) && column in t.header && i < |t.rows|
  {
    assert t.rows[i] in t.rows;
    t.rows[i][ColumnIndex(t.header, column)]
  }

  /** Every cell of the column called `column`, top to bottom. */
  function Column(t: Table, column: string): seq<string>
    requires WellFormed(t) && column in t.header
  {
    seq(|t.rows|, i requires 0 <= i < |t.rows| => Cell(t, i, column))
  }

  /** The `valueColumn` cells of the rows whose `keyColumn` equals `key`, in table order. */
  function Select(t: Table, keyColumn: string, key: string, valueColumn: string): seq<string>
    requires WellFormed(t) && keyColumn in t.header && valueColumn in t.header
  {
    var idx := MatchIndices(t.rows, ColumnIndex(t.header, keyColumn), key);
    assert forall j :: 0 <= j < |idx| ==> t.rows[idx[j]] in t.rows;
    Project(t.rows, idx, ColumnIndex(t.header, valueColumn))
  }

  /** The cells from position `from` on of the rows whose `keyColumn` equals
      `key`, row-major. */
  function SelectFlat(t: Table, keyColumn: string, key: string, from: nat): seq<string>
    requires WellFormed(t) && keyColumn in t.header && from <= |t.header|
  {
    var idx := MatchIndices(t.rows, ColumnIndex(t.header, keyColumn), key);
    assert forall j :: 0 <= j < |idx| ==> t.rows[idx[j]] in t.rows;
    FlattenFrom(t.rows, idx, from)
  }

  /** The number of rows whose column `k` equals `key`. */
  ghost function MatchCount(rows: seq<seq<string>>, k: nat, key: string): nat {
    |set i | 0 <= i < |rows| && Matches(rows[i], k, key)|
  }

  /** A strictly increasing sequence of positions lists each element of its
      set once, so its length is the size of that set. */
  lemma {:induction false} IncreasingLength(idx: seq<nat>)
    requires forall j, j' :: 0 <= j < j' < |idx| ==> idx[j] < idx[j']
    ensures |idx| == |set j | 0 <= j < |idx| :: idx[j]|
  {
    if idx != [] {
      var n := |idx| - 1;
      var prefix := idx[..n];
      IncreasingLength(prefix);
      var s := set j | 0 <= j < |idx| :: idx[j];
      var sp := set j | 0 <= j < |prefix| :: prefix[j];
      assert s == sp + {idx[n]};
      assert idx[n] !in sp;
    }
  }

  /** The filter keeps every matching row and nothing else: there are exactly
      as many positions as matching rows. */
  lemma MatchIndicesCount(rows: seq<seq<string>>, k: nat, key: string)
    ensures |MatchIndices(rows, k, key)| == MatchCount(rows, k, key)
  {
    var idx := MatchIndices(rows, k, key);
    IncreasingLength(idx);
    var s := set j | 0 <= j < |idx| :: idx[j];
    var m := set i | 0 <= i < |rows| && Matches(rows[i], k, key);
    assert s == m by {
      forall i | i in m ensures i in s {
        var j :| 0 <= j < |idx| && idx[j] == i;
      }
    }
  }

  /** Each selected row contributes `w` cells (those from column `from` on),
      so the flattening has (selected rows) * `w` cells, and none at all when
      no column follows `from`. */
  lemma {:induction false} FlattenFromLength(rows: seq<seq<string>>, idx: seq<nat>, from: nat, w: nat)
    requires forall j :: 0 <= j < |idx| ==> idx[j] < |rows| && |rows[idx[j]]| == from + w
    ensures |FlattenFrom(rows, idx, from)| == |idx| * w
    ensures w == 0 ==> FlattenFrom(rows, idx, from) == []
  {
    if idx != [] {
      FlattenFromLength(rows, idx[1..], from, w);
      MulStep(|idx|, w);
    }
  }

  /** The multiplication step of the inductions in `FlattenFromLength` and `RowMajorIndexValue`. */
  lemma MulStep(n: nat, w: nat)
    requires n > 0
    ensures n * w == w + (n - 1) * w
  {
  }

  /** Where cell `m` of the `j`-th of a run of rows of `w` cells lands in
      their row-major flattening: after `j` whole rows. */
  function RowMajorIndex(j: nat, m: nat, w: nat): nat {
    if j == 0 then m else w + RowMajorIndex(j - 1, m, w)
  }

  /** The row-major position is `j * w + m`. */
  lemma {:induction false} RowMajorIndexValue(j: nat, m: nat, w: nat)
    ensures RowMajorIndex(j, m, w) == j * w + m
  {
    if j > 0 {
      RowMajorIndexValue(j - 1, m, w);
      MulStep(j, w);
    }
  }

  /** Row-major layout: cell `from + m` of the `j`-th selected row sits at
      position `RowMajorIndex(j, m, w)` of the flattening. */
  lemma {:induction false} FlattenFromAt(rows: seq<seq<string>>, idx: seq<nat>, from: nat, w: nat, j: nat, m: nat)
    requires forall j :: 0 <= j < |idx| ==> idx[j] < |rows| && |rows[idx[j]]| == from + w
    requires j < |idx| && m < w
    ensures RowMajorIndex(j, m, w) < |FlattenFrom(rows, idx, from)|
    ensures FlattenFrom(rows, idx, from)[RowMajorIndex(j, m, w)] == rows[idx[j]][from + m]
  {
    var head := rows[idx[0]][from..];
    var tail := FlattenFrom(rows, idx[1..], from);
    assert |head| == w;
    assert FlattenFrom(rows, idx, from) == head + tail;
    if j > 0 {
      FlattenFromAt(rows, idx[1..], from, w, j - 1, m);
    }
  }

  /** The whole row-major layout: when every selected row has `w` cells
      from column `from` on, the flattening has (rows) * `w` cells and each
      of those cells is at its row-major position; with `w == 0` it is empty. */
  lemma FlattenFromRowMajor(rows: seq<seq<string>>, idx: seq<nat>, from: nat, w: nat)
    requires forall j :: 0 <= j < |idx| ==> idx[j] < |rows| && |rows[idx[j]]| == from + w
    ensures |FlattenFrom(rows, idx, from)| == |idx| * w
    ensures w == 0 ==> FlattenFrom(rows, idx, from) == []
    ensures forall j, m :: 0 <= j < |idx| && 0 <= m < w ==>
              RowMajorIndex(j, m, w) < |FlattenFrom(rows, idx, from)| &&
              FlattenFrom(rows, idx, from)[RowMajorIndex(j, m, w)] == rows[idx[j]][from + m]
  {
    FlattenFromLength(rows, idx, from, w);
    forall j, m | 0 <= j < |idx| && 0 <= m < w
      ensures RowMajorIndex(j, m, w) < |FlattenFrom(rows, idx, from)|
      ensures FlattenFrom(rows, idx, from)[RowMajorIndex(j, m, w)] == rows[idx[j]][from + m]
    {
      FlattenFromAt(rows, idx, from, w, j, m);
    }
  }
}
