/**
 * The raw xrootd aggregations: each reduces a table of file-access events to
 * one number. Byte totals are kept in integer bytes; `Terabytes` gives the
 * exact value of the division by 1e12 that `xrootd_aggs.py` does in floating
 * point.
 *
 * Each aggregation is written the way the Python code computes it (filter,
 * drop duplicates, group, sum). working_set, num_unique_files and
 * num_unique_file_access are connected by lemmas to independent reference
 * definitions over sets, from which their order- and duplicate-insensitivity
 * follows; the two plain totals are pinned by additivity over concatenation.
 */
module XrootdAggs {
  import opened Frames

  // ---------------------------------------------------------------------------
  // Keys used for deduplication and counting
  // ---------------------------------------------------------------------------

  /** The `(file_name, file_size)` pair that `working_set` deduplicates on. */
  datatype FileKey = FileKey(name: string, size: nat)

  /** A `(file_name, app_info)` pair: one file opened in one accessing context. */
  datatype Access = Access(file_name: string, app_info: string)

  function KeyOf(row: Row): FileKey
  {
    FileKey(row.file_name, row.file_size)
  }

  function AccessOf(row: Row): Access
  {
    Access(row.file_name, row.app_info)
  }

  function Keys(t: Table): set<FileKey>
  {
    set row | row in t :: KeyOf(row)
  }

  /** No two rows of `t` share a `(file_name, file_size)` pair. */
  predicate UniqueKeys(t: Table)
  {
    forall i, j :: 0 <= i < j < |t| ==> KeyOf(t[i]) != KeyOf(t[j])
  }

  /** The same rows occur in both tables, however often and in whatever order. */
  ghost predicate SameRows(a: Table, b: Table)
  {
    forall row :: row in a <==> row in b
  }

  // ---------------------------------------------------------------------------
  // working_set
  // ---------------------------------------------------------------------------

  /**
   * `drop_duplicates(["file_name", "file_size"])`: keeps the first row of each
   * `(file_name, file_size)` pair, in the original order.
   */
  function DropDuplicates(t: Table): (r: Table)
    ensures Keys(r) == Keys(t)
    ensures UniqueKeys(r)
    ensures forall row :: row in r ==> row in t
  {
    if t == [] then []
    else
      var front := t[..|t| - 1];
      var last := t[|t| - 1];
      var p := DropDuplicates(front);
      assert t == front + [last];
      assert Keys(t) == Keys(front) + {KeyOf(last)};
      if KeyOf(last) in Keys(p) then p
      else
        assert Keys(p + [last]) == Keys(p) + {KeyOf(last)};
        p + [last]
  }

  /** Dropping duplicates never increases the size total. */
  lemma {:induction false} DropDuplicatesSumBound(t: Table)
    ensures ColumnSum(DropDuplicates(t), FileSize) <= ColumnSum(t, FileSize)
  {
    if t != [] {
      var front := t[..|t| - 1];
      var last := t[|t| - 1];
      var p := DropDuplicates(front);
      DropDuplicatesSumBound(front);
      assert t == front + [last];
      ColumnSumAppend(front, last, FileSize);
      ColumnSumAppend(p, last, FileSize);
    }
  }

  /**
   * working_set: the bytes of the distinct `(file_name, file_size)` pairs among
   * the rows whose operation is "read". `chunked` is accepted and never read.
   */
  function WorkingSet(t: Table, chunked: bool): (r: nat)
    ensures t == [] ==> r == 0
  {
    ColumnSum(DropDuplicates(Where(t, Operation, "read")), FileSize)
  }

  /** The pairs of the read rows, defined directly from the table. */
  ghost function ReadKeys(t: Table): set<FileKey>
  {
    set row | row in t && row.operation == "read" :: KeyOf(row)
  }

  /** The sum of the sizes in a set of pairs, each pair counted once. */
  ghost function SizeTotal(keys: set<FileKey>): nat
  {
    if keys == {} then 0
    else
      var k :| k in keys;
      k.size + SizeTotal(keys - {k})
  }

  /** `SizeTotal` does not depend on which pair it takes out first. */
  lemma {:induction false} SizeTotalRemove(keys: set<FileKey>, k: FileKey)
    requires k in keys
    ensures SizeTotal(keys) == k.size + SizeTotal(keys - {k})
    decreases |keys|
  {
    var j :| j in keys && SizeTotal(keys) == j.size + SizeTotal(keys - {j});
    if j != k {
      SizeTotalRemove(keys - {j}, k);
      SizeTotalRemove(keys - {k}, j);
      assert keys - {j} - {k} == keys - {k} - {j};
    }
  }

  /** On a table whose pairs are all different, the size column sums the pairs. */
  lemma {:induction false} UniqueKeysSum(t: Table)
    requires UniqueKeys(t)
    ensures ColumnSum(t, FileSize) == SizeTotal(Keys(t))
  {
    if t == [] {
      assert Keys(t) == {};
    } else {
      var rest := t[1..];
      assert UniqueKeys(rest) by {
        forall i, j | 0 <= i < j < |rest| ensures KeyOf(rest[i]) != KeyOf(rest[j]) {
          assert rest[i] == t[i + 1] && rest[j] == t[j + 1];
        }
      }
      UniqueKeysSum(rest);
      assert KeyOf(t[0]) !in Keys(rest) by {
        forall row | row in rest ensures KeyOf(row) != KeyOf(t[0]) {
          var j :| 0 <= j < |rest| && rest[j] == row;
          assert t[j + 1] == row;
        }
      }
      assert Keys(rest) == Keys(t) - {KeyOf(t[0])} by {
        assert t == [t[0]] + rest;
      }
      SizeTotalRemove(Keys(t), KeyOf(t[0]));
    }
  }

  /** working_set is the total size of the distinct pairs of the read rows. */
  lemma WorkingSetIsSizeOfReadPairs(t: Table, chunked: bool)
    ensures WorkingSet(t, chunked) == SizeTotal(ReadKeys(t))
  {
    var readRows := Where(t, Operation, "read");
    UniqueKeysSum(DropDuplicates(readRows));
    assert Keys(readRows) == ReadKeys(t);
  }

  /** The `chunked` flag never changes the result. */
  lemma WorkingSetIgnoresChunked(t: Table)
    ensures WorkingSet(t, true) == WorkingSet(t, false)
  {
  }

  /** A row whose operation is not "read", inserted anywhere, changes nothing. */
  lemma WorkingSetIgnoresNonReads(a: Table, row: Row, b: Table, chunked: bool)
    requires row.operation != "read"
    ensures WorkingSet(a + [row] + b, chunked) == WorkingSet(a + b, chunked)
  {
    assert ReadKeys(a + [row] + b) == ReadKeys(a + b);
    WorkingSetIsSizeOfReadPairs(a + [row] + b, chunked);
    WorkingSetIsSizeOfReadPairs(a + b, chunked);
  }

  /** Dropping every row that is not a read leaves working_set unchanged. */
  lemma WorkingSetOfReadsOnly(t: Table, chunked: bool)
    ensures WorkingSet(Where(t, Operation, "read"), chunked) == WorkingSet(t, chunked)
  {
    assert ReadKeys(Where(t, Operation, "read")) == ReadKeys(t);
    WorkingSetIsSizeOfReadPairs(Where(t, Operation, "read"), chunked);
    WorkingSetIsSizeOfReadPairs(t, chunked);
  }

  /** A read row whose pair is already read elsewhere, inserted anywhere, changes nothing. */
  lemma WorkingSetRepeatedPair(a: Table, row: Row, b: Table, chunked: bool)
    requires row.operation == "read"
    requires KeyOf(row) in ReadKeys(a + b)
    ensures WorkingSet(a + [row] + b, chunked) == WorkingSet(a + b, chunked)
  {
    assert ReadKeys(a + [row] + b) == ReadKeys(a + b);
    WorkingSetIsSizeOfReadPairs(a + [row] + b, chunked);
    WorkingSetIsSizeOfReadPairs(a + b, chunked);
  }

  /**
   * A read row with a pair not read before adds exactly its size; so two read
   * rows with one name and different sizes are both counted.
   */
  lemma WorkingSetNewPair(t: Table, row: Row, chunked: bool)
    requires row.operation == "read"
    requires KeyOf(row) !in ReadKeys(t)
    ensures WorkingSet(t + [row], chunked) == WorkingSet(t, chunked) + row.file_size
  {
    assert ReadKeys(t + [row]) == ReadKeys(t) + {KeyOf(row)};
    assert ReadKeys(t + [row]) - {KeyOf(row)} == ReadKeys(t);
    SizeTotalRemove(ReadKeys(t + [row]), KeyOf(row));
    WorkingSetIsSizeOfReadPairs(t + [row], chunked);
    WorkingSetIsSizeOfReadPairs(t, chunked);
  }

  /**
   * working_set is at most the size column summed over the read rows, which
   * is at most total_naive_reads.
   */
  lemma WorkingSetBounds(t: Table, chunked: bool)
    ensures WorkingSet(t, chunked) <= ColumnSum(Where(t, Operation, "read"), FileSize)
    ensures WorkingSet(t, chunked) <= TotalNaiveReads(t)
  {
    WhereSumBound(t, Operation, "read", FileSize);
    DropDuplicatesSumBound(Where(t, Operation, "read"));
  }

  // ---------------------------------------------------------------------------
  // total_naive_reads and total_actual_reads
  // ---------------------------------------------------------------------------

  /** total_naive_reads: `file_size` summed over every row, whatever its operation. */
  function TotalNaiveReads(t: Table): (r: nat)
    ensures t == [] ==> r == 0
  {
    ColumnSum(t, FileSize)
  }

  /** total_actual_reads: `read_bytes` summed over every row. */
  function TotalActualReads(t: Table): (r: nat)
    ensures t == [] ==> r == 0
  {
    ColumnSum(t, ReadBytes)
  }

  /** Both plain totals are additive over concatenation of tables. */
  lemma TotalsAdditive(a: Table, b: Table)
    ensures TotalNaiveReads(a + b) == TotalNaiveReads(a) + TotalNaiveReads(b)
    ensures TotalActualReads(a + b) == TotalActualReads(a) + TotalActualReads(b)
  {
    ColumnSumConcat(a, b, FileSize);
    ColumnSumConcat(a, b, ReadBytes);
  }

  /** Appending a row adds exactly its `file_size` and its `read_bytes`. */
  lemma TotalsAppend(t: Table, row: Row)
    ensures TotalNaiveReads(t + [row]) == TotalNaiveReads(t) + row.file_size
    ensures TotalActualReads(t + [row]) == TotalActualReads(t) + row.read_bytes
  {
    ColumnSumAppend(t, row, FileSize);
    ColumnSumAppend(t, row, ReadBytes);
  }

  // ---------------------------------------------------------------------------
  // num_unique_files
  // ---------------------------------------------------------------------------

  /** num_unique_files: `file_name.nunique()`. */
  function NumUniqueFiles(t: Table): (r: nat)
    ensures r <= |t|
  {
    NUnique(Values(t, FileName))
  }

  /** The set of file names of the table. */
  ghost function FileNames(t: Table): set<string>
  {
    set row | row in t :: row.file_name
  }

  /** num_unique_files is the number of different file names. */
  lemma NumUniqueFilesIsCardinality(t: Table)
    ensures NumUniqueFiles(t) == |FileNames(t)|
  {
    assert (set x | x in Values(t, FileName)) == FileNames(t);
  }

  // ---------------------------------------------------------------------------
  // num_unique_file_access
  // ---------------------------------------------------------------------------

  /**
   * One group's `app_info.nunique()`: the number of different `app_info`
   * values among the rows of file `name`, positive exactly when the file occurs.
   */
  function GroupNUnique(t: Table, name: string): (r: nat)
    ensures r == |set row | row in t && row.file_name == name :: row.app_info|
    ensures r > 0 <==> exists row :: row in t && row.file_name == name
  {
    var group := Where(t, FileName, name);
    assert (set x | x in Values(group, AppInfo))
        == (set row | row in t && row.file_name == name :: row.app_info);
    assert forall row :: row in t && row.file_name == name ==> row in group;
    NUnique(Values(group, AppInfo))
  }

  /**
   * The `.sum()` of the per-file distinct counts of the files `names`; every
   * file of `names` that occurs in `t` adds at least one.
   */
  function GroupCountsSum(t: Table, names: seq<string>): (r: nat)
    ensures (forall n :: n in names ==> n in Values(t, FileName)) ==> r >= |names|
  {
    if names == [] then 0
    else
      assert names[0] in Values(t, FileName) ==> GroupNUnique(t, names[0]) > 0;
      GroupNUnique(t, names[0]) + GroupCountsSum(t, names[1..])
  }

  /**
   * num_unique_file_access: `groupby("file_name").app_info.nunique().sum()`.
   * The groups are visited in order of first appearance rather than sorted;
   * the sum does not depend on that order.
   */
  function NumUniqueFileAccess(t: Table): (r: nat)
    ensures t == [] ==> r == 0
  {
    GroupCountsSum(t, Distinct(Values(t, FileName)))
  }

  /** The set of `(file_name, app_info)` pairs of the table. */
  ghost function AccessPairs(t: Table): set<Access>
  {
    set row | row in t :: AccessOf(row)
  }

  /** The pairs of the rows whose file name is one of `names`. */
  ghost function AccessPairsOf(t: Table, names: seq<string>): set<Access>
  {
    set row | row in t && row.file_name in names :: AccessOf(row)
  }

  /** Pairing one file name with each of a set of contexts gives as many pairs. */
  lemma {:induction false} PairsWithName(apps: set<string>, name: string)
    ensures |set a | a in apps :: Access(name, a)| == |apps|
    decreases |apps|
  {
    if apps != {} {
      var a :| a in apps;
      PairsWithName(apps - {a}, name);
      assert (set x | x in apps :: Access(name, x))
          == (set x | x in apps - {a} :: Access(name, x)) + {Access(name, a)};
    }
  }

  /** The distinct count of one group is the number of pairs with that file name. */
  lemma GroupIsPairs(t: Table, name: string)
    ensures GroupNUnique(t, name) == |AccessPairsOf(t, [name])|
  {
    var apps := set x | x in Values(Where(t, FileName, name), AppInfo);
    assert AccessPairsOf(t, [name]) == set a | a in apps :: Access(name, a);
    PairsWithName(apps, name);
  }

  /** Summing the groups of distinct file names counts their distinct pairs. */
  lemma {:induction false} GroupCountsSumIsPairs(t: Table, names: seq<string>)
    requires NoRepeats(names)
    ensures GroupCountsSum(t, names) == |AccessPairsOf(t, names)|
  {
    if names == [] {
      assert AccessPairsOf(t, names) == {};
    } else {
      var rest := names[1..];
      assert NoRepeats(rest) by {
        forall i, j | 0 <= i < j < |rest| ensures rest[i] != rest[j] {
          assert rest[i] == names[i + 1] && rest[j] == names[j + 1];
        }
      }
      GroupCountsSumIsPairs(t, rest);
      GroupIsPairs(t, names[0]);
      assert names == [names[0]] + rest;
      assert AccessPairsOf(t, names) == AccessPairsOf(t, [names[0]]) + AccessPairsOf(t, rest);
      assert names[0] !in rest;
      assert AccessPairsOf(t, [names[0]]) !! AccessPairsOf(t, rest);
    }
  }

  /** num_unique_file_access is the number of distinct `(file_name, app_info)` pairs. */
  lemma NumUniqueFileAccessIsPairCount(t: Table)
    ensures NumUniqueFileAccess(t) == |AccessPairs(t)|
  {
    var names := Distinct(Values(t, FileName));
    GroupCountsSumIsPairs(t, names);
    assert AccessPairsOf(t, names) == AccessPairs(t) by {
      forall row | row in t ensures row.file_name in names {
        assert Text(row, FileName) == row.file_name;
      }
    }
  }

  /** A table has no more distinct pairs than rows. */
  lemma {:induction false} AccessPairsAtMostRows(t: Table)
    ensures |AccessPairs(t)| <= |t|
  {
    if t != [] {
      AccessPairsAtMostRows(t[1..]);
      assert t == [t[0]] + t[1..];
      assert AccessPairs(t) == {AccessOf(t[0])} + AccessPairs(t[1..]);
    }
  }

  /**
   * num_unique_files <= num_unique_file_access <= number of rows: each file
   * has at least one row, so at least one context, and each row adds at most
   * one pair.
   */
  lemma UniqueFileAccessBounds(t: Table)
    ensures NumUniqueFiles(t) <= NumUniqueFileAccess(t) <= |t|
  {
    NumUniqueFileAccessIsPairCount(t);
    AccessPairsAtMostRows(t);
  }

  // ---------------------------------------------------------------------------
  // Order and duplicates
  // ---------------------------------------------------------------------------

  /**
   * The three counting aggregations depend only on which rows occur: repeating
   * a row or reordering rows leaves them unchanged.
   */
  lemma CountsDependOnlyOnRows(a: Table, b: Table, chunked: bool)
    requires SameRows(a, b)
    ensures WorkingSet(a, chunked) == WorkingSet(b, chunked)
    ensures NumUniqueFiles(a) == NumUniqueFiles(b)
    ensures NumUniqueFileAccess(a) == NumUniqueFileAccess(b)
  {
    assert ReadKeys(a) == ReadKeys(b);
    WorkingSetIsSizeOfReadPairs(a, chunked);
    WorkingSetIsSizeOfReadPairs(b, chunked);
    assert FileNames(a) == FileNames(b);
    NumUniqueFilesIsCardinality(a);
    NumUniqueFilesIsCardinality(b);
    assert AccessPairs(a) == AccessPairs(b);
    NumUniqueFileAccessIsPairCount(a);
    NumUniqueFileAccessIsPairCount(b);
  }

  /** Every raw aggregation gives the same result on any permutation of the rows. */
  lemma PermutationInvariant(a: Table, b: Table, chunked: bool)
    requires multiset(a) == multiset(b)
    ensures WorkingSet(a, chunked) == WorkingSet(b, chunked)
    ensures TotalNaiveReads(a) == TotalNaiveReads(b)
    ensures TotalActualReads(a) == TotalActualReads(b)
    ensures NumUniqueFiles(a) == NumUniqueFiles(b)
    ensures NumUniqueFileAccess(a) == NumUniqueFileAccess(b)
  {
    assert SameRows(a, b) by {
      forall row ensures row in a <==> row in b {
        assert row in a <==> row in multiset(a);
        assert row in b <==> row in multiset(b);
      }
    }
    CountsDependOnlyOnRows(a, b, chunked);
    ColumnSumPermutation(a, b, FileSize);
    ColumnSumPermutation(a, b, ReadBytes);
  }

  // ---------------------------------------------------------------------------
  // A worked example
  // ---------------------------------------------------------------------------

  // The three lemmas below are about a table of two reads of one file by two
  // contexts and a write of another file, such as ("read", "a", 100, 50, "u1"),
  // ("read", "a", 100, 30, "u2"), ("write", "b", 200, 0, "u1"), for which
  // working_set is 100, total_naive_reads 400, total_actual_reads 80,
  // num_unique_files 2 and num_unique_file_access 3.

  /** working_set counts the shared `(file_name, file_size)` pair once and skips the write. */
  lemma ExampleWorkingSet(r1: Row, r2: Row, r3: Row, chunked: bool)
    requires r1.operation == "read" && r2.operation == "read" && r3.operation != "read"
    requires KeyOf(r1) == KeyOf(r2)
    ensures WorkingSet([r1, r2, r3], chunked) == r1.file_size
  {
    var t := [r1, r2, r3];
    WorkingSetIsSizeOfReadPairs(t, chunked);
    assert ReadKeys(t) == {KeyOf(r1)};
    SizeTotalRemove({KeyOf(r1)}, KeyOf(r1));
  }

  /** Both plain totals count every row, the write included. */
  lemma ExampleTotals(r1: Row, r2: Row, r3: Row)
    ensures TotalNaiveReads([r1, r2, r3]) == r1.file_size + r2.file_size + r3.file_size
    ensures TotalActualReads([r1, r2, r3]) == r1.read_bytes + r2.read_bytes + r3.read_bytes
  {
    assert [] + [r1] == [r1] && [r1] + [r2] == [r1, r2] && [r1, r2] + [r3] == [r1, r2, r3];
    TotalsAppend([], r1);
    TotalsAppend([r1], r2);
    TotalsAppend([r1, r2], r3);
  }

  /** Two different file names. */
  lemma ExampleUniqueFiles(r1: Row, r2: Row, r3: Row)
    requires r1.file_name == r2.file_name && r3.file_name != r1.file_name
    ensures NumUniqueFiles([r1, r2, r3]) == 2
  {
    NumUniqueFilesIsCardinality([r1, r2, r3]);
    assert FileNames([r1, r2, r3]) == {r1.file_name, r3.file_name};
  }

  /** The first file has two contexts and the second one: three pairs. */
  lemma ExampleUniqueFileAccess(r1: Row, r2: Row, r3: Row)
    requires r1.file_name == r2.file_name && r1.app_info != r2.app_info
    requires r3.file_name != r1.file_name
    ensures NumUniqueFileAccess([r1, r2, r3]) == 3
  {
    ExampleAccessPairs(r1, r2, r3);
    NumUniqueFileAccessIsPairCount([r1, r2, r3]);
  }

  /** The three rows give three different `(file_name, app_info)` pairs. */
  lemma ExampleAccessPairs(r1: Row, r2: Row, r3: Row)
    requires r1.file_name == r2.file_name && r1.app_info != r2.app_info
    requires r3.file_name != r1.file_name
    ensures |AccessPairs([r1, r2, r3])| == 3
  {
    var p1, p2, p3 := AccessOf(r1), AccessOf(r2), AccessOf(r3);
    assert AccessPairs([r1, r2, r3]) == {p1, p2} + {p3};
    assert |{p1, p2}| == 2 by { assert {p1, p2} == {p1} + {p2}; }
  }

  // ---------------------------------------------------------------------------
  // Units
  // ---------------------------------------------------------------------------

  /** Bytes as terabytes (1 TB = 10^12 bytes), exactly; `xrootd_aggs.py` divides in floating point. */
  function Terabytes(bytes: nat): (tb: real)
    ensures tb >= 0.0
    ensures tb * 1000000000000.0 == bytes as real
  {
    bytes as real / 1000000000000.0
  }
}
