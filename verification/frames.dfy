/**
 * The few data-frame operations the xrootd aggregations are built from:
 * a table of event rows, the sum of a numeric column, selection of the rows
 * whose text column equals a value, a text column as a sequence, and the
 * distinct values of a sequence (`unique` / `nunique`).
 */
module Frames {

  /** One file-access event of the xrootd monitoring feed. */
  datatype Row = Row(
    operation: string,
    file_name: string,
    file_size: nat,
    read_bytes: nat,
    app_info: string)

  /** A table of events, in the order they were loaded. */
  type Table = seq<Row>

  /** The numeric columns, in bytes. */
  datatype Column = FileSize | ReadBytes

  /** The text columns. */
  datatype TextColumn = Operation | FileName | AppInfo

  function Cell(row: Row, c: Column): nat
  {
    match c
    case FileSize => row.file_size
    case ReadBytes => row.read_bytes
  }

  function Text(row: Row, c: TextColumn): string
  {
    match c
    case Operation => row.operation
    case FileName => row.file_name
    case AppInfo => row.app_info
  }

  // ---------------------------------------------------------------------------
  // Column sums: `df.<column>.sum()`
  // ---------------------------------------------------------------------------

  /** The sum of column `c` over every row; 0 for an empty table. */
  function ColumnSum(t: Table, c: Column): (r: nat)
    ensures t == [] ==> r == 0
    ensures forall i :: 0 <= i < |t| ==> Cell(t[i], c) <= r
  {
    if t == [] then 0
    else
      var rest := ColumnSum(t[1..], c);
      assert forall i :: 1 <= i < |t| ==> t[i] == t[1..][i - 1];
      Cell(t[0], c) + rest
  }

  /** A column sum is additive over concatenation of tables. */
  lemma {:induction false} ColumnSumConcat(a: Table, b: Table, c: Column)
    ensures ColumnSum(a + b, c) == ColumnSum(a, c) + ColumnSum(b, c)
  {
    if a == [] {
      assert a + b == b;
    } else {
      assert (a + b)[1..] == a[1..] + b;
      ColumnSumConcat(a[1..], b, c);
    }
  }

  /** Appending one row adds exactly that row's cell. */
  lemma ColumnSumAppend(t: Table, row: Row, c: Column)
    ensures ColumnSum(t + [row], c) == ColumnSum(t, c) + Cell(row, c)
  {
    ColumnSumConcat(t, [row], c);
  }

  /** Taking row `i` out of a table lowers the sum by exactly that row's cell. */
  lemma ColumnSumRemove(t: Table, i: nat, c: Column)
    requires i < |t|
    ensures ColumnSum(t, c) == Cell(t[i], c) + ColumnSum(t[..i] + t[i + 1..], c)
  {
    assert t == t[..i] + [t[i]] + t[i + 1..];
    ColumnSumConcat(t[..i] + [t[i]], t[i + 1..], c);
    ColumnSumAppend(t[..i], t[i], c);
    ColumnSumConcat(t[..i], t[i + 1..], c);
  }

  /** A column sum depends only on the multiset of rows, not on their order. */
  lemma {:induction false} ColumnSumPermutation(a: Table, b: Table, c: Column)
    requires multiset(a) == multiset(b)
    ensures ColumnSum(a, c) == ColumnSum(b, c)
    decreases |a|
  {
    if a == [] {
      assert |b| == |multiset(b)| == 0;
    } else {
      var x := a[0];
      assert x in multiset(b);
      var i :| 0 <= i < |b| && b[i] == x;
      var rest := b[..i] + b[i + 1..];
      assert multiset(a[1..]) == multiset(rest) by {
        assert a == [x] + a[1..];
        assert b == b[..i] + [x] + b[i + 1..];
        assert multiset(a[1..]) == multiset(a) - multiset{x};
        assert multiset(rest) == multiset(b) - multiset{x};
      }
      ColumnSumPermutation(a[1..], rest, c);
      ColumnSumRemove(b, i, c);
    }
  }

  // ---------------------------------------------------------------------------
  // Row selection: `df[df.<column> == v]`
  // ---------------------------------------------------------------------------

  /** The rows whose text column `c` equals `v`, in their original order. */
  function Where(t: Table, c: TextColumn, v: string): (r: Table)
    ensures |r| <= |t|
    ensures forall row :: row in r <==> row in t && Text(row, c) == v
  {
    if t == [] then []
    else (if Text(t[0], c) == v then [t[0]] else []) + Where(t[1..], c, v)
  }

  /** Every selected row is kept as many times as it occurs in the table. */
  lemma {:induction false} WhereMultiplicity(t: Table, c: TextColumn, v: string)
    ensures forall row :: multiset(Where(t, c, v))[row] == if Text(row, c) == v then multiset(t)[row] else 0
  {
    if t != [] {
      WhereMultiplicity(t[1..], c, v);
      assert t == [t[0]] + t[1..];
    }
  }

  /** Selecting rows never increases a column sum (all cells are non-negative). */
  lemma {:induction false} WhereSumBound(t: Table, c: TextColumn, v: string, n: Column)
    ensures ColumnSum(Where(t, c, v), n) <= ColumnSum(t, n)
  {
    if t != [] {
      WhereSumBound(t[1..], c, v, n);
      ColumnSumConcat(if Text(t[0], c) == v then [t[0]] else [], Where(t[1..], c, v), n);
    }
  }

  // ---------------------------------------------------------------------------
  // Text columns and distinct values: `df.<column>`, `unique`, `nunique`
  // ---------------------------------------------------------------------------

  /** Text column `c` of the table, one value per row. */
  function Values(t: Table, c: TextColumn): (r: seq<string>)
    ensures |r| == |t|
    ensures forall i :: 0 <= i < |t| ==> r[i] == Text(t[i], c)
    ensures forall v :: v in r <==> exists row :: row in t && Text(row, c) == v
  {
    if t == [] then [] else [Text(t[0], c)] + Values(t[1..], c)
  }

  /** No value occurs twice in `s`. */
  predicate NoRepeats<T(==, !new)>(s: seq<T>)
  {
    forall i, j :: 0 <= i < j < |s| ==> s[i] != s[j]
  }

  /** The values of `s` without repeats, each kept at its first occurrence. */
  function Distinct<T(==, !new)>(s: seq<T>): (r: seq<T>)
    ensures forall x :: x in r <==> x in s
    ensures NoRepeats(r)
    ensures |r| <= |s|
  {
    if s == [] then []
    else
      var p := Distinct(s[..|s| - 1]);
      var last := s[|s| - 1];
      assert s == s[..|s| - 1] + [last];
      if last in p then p else p + [last]
  }

  /** A sequence without repeats has as many distinct values as elements. */
  lemma {:induction false} NoRepeatsCardinality<T(!new)>(s: seq<T>)
    requires NoRepeats(s)
    ensures |set x | x in s| == |s|
  {
    if s != [] {
      var p := s[..|s| - 1];
      NoRepeatsCardinality(p);
      assert (set x | x in s) == (set x | x in p) + {s[|s| - 1]};
      assert s[|s| - 1] !in p;
    }
  }

  /** The number of distinct values of `s`; an empty sequence has none. */
  function NUnique<T(==, !new)>(s: seq<T>): (r: nat)
    ensures r == |set x | x in s|
    ensures r <= |s|
    ensures |s| > 0 ==> r > 0
  {
    var d := Distinct(s);
    NoRepeatsCardinality(d);
    assert (set x | x in d) == (set x | x in s);
    if |s| > 0 then assert s[0] in d; |d| else |d|
  }
}
