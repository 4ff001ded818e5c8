# xrootd raw aggregations, modelled in Dafny

This project models the raw aggregations of the xrootd monitoring feed
(`monit/aggs/xrootd_aggs.py`). Each one reduces a table of file-access events
to a single number:

- `working_set`: keep the rows whose `operation` is `"read"`, drop rows
  repeating a `(file_name, file_size)` pair, and sum `file_size`;
- `total_naive_reads`: sum `file_size` over every row;
- `total_actual_reads`: sum `read_bytes` over every row;
- `num_unique_file_access`: group the rows by `file_name`, count the distinct
  `app_info` values of each group, and add the counts;
- `num_unique_files`: count the distinct `file_name` values.

A table is a `seq<Row>`. `Row` has the five columns the aggregations read:
`operation`, `file_name` and `app_info` as strings, and `file_size` and
`read_bytes` as `nat`.

`frames.dfy` (module `Frames`) holds the data-frame operations the
aggregations are built from:

- the sum of a numeric column;
- selection of the rows where a text column equals a value;
- a text column as a sequence;
- the distinct values of a sequence, and how many there are.

`xrootd_aggs.dfy` (module `XrootdAggs`) writes each aggregation the way the
Python code computes it. Three of the five also get an independent reference
definition over sets:

- `working_set` is the total size of the set of `(file_name, file_size)`
  pairs of read rows;
- `num_unique_files` is the size of the set of file names;
- `num_unique_file_access` is the size of the set of `(file_name, app_info)`
  pairs.

Lemmas connect each of these three computations to its reference. From the
references follow: non-read rows are ignored, and repeated rows and row order
do not matter. The two plain totals, `total_naive_reads` and
`total_actual_reads`, are pinned instead by additivity over concatenation of
tables (`TotalsAdditive`, `TotalsAppend`), proved from `ColumnSumConcat`, and
by invariance under permutation (`ColumnSumPermutation`).

Byte totals are kept in integer bytes. `xrootd_aggs.py` divides them by `1e12`
in floating point to get terabytes; `Terabytes` gives the exact quotient.

With non-negative sizes, `working_set` sums a filtered, deduplicated subset of
the rows that `total_naive_reads` sums, so
`working_set <= total_naive_reads` (`WorkingSetBounds`).

When `app_info` has no missing values (see "Left out"), every file that occurs
has at least one row and so at least one `app_info` value, so
`num_unique_files <= num_unique_file_access` (`UniqueFileAccessBounds`).

## Model

| member | source | states |
|---|---|---|
| `Frames.ColumnSum` | monit/aggs/xrootd_aggs.py:12 | the sum of a column is 0 on an empty table and at least every single row's cell |
| `Frames.ColumnSumConcat` | monit/aggs/xrootd_aggs.py:11-16 | a column sum over `a + b` is the sum over `a` plus the sum over `b` |
| `Frames.ColumnSumAppend` | monit/aggs/xrootd_aggs.py:11-16 | appending a row raises a column sum by exactly that row's cell |
| `Frames.ColumnSumPermutation` | monit/aggs/xrootd_aggs.py:11-16 | two tables with the same multiset of rows have the same column sums |
| `Frames.Where` | monit/aggs/xrootd_aggs.py:6 | a row occurs in the selection iff it occurs in the table and its column equals the value; the selection is no longer than the table |
| `Frames.WhereMultiplicity` | monit/aggs/xrootd_aggs.py:6 | every row whose column equals the value occurs in the selection exactly as many times as in the table, and no other row occurs |
| `Frames.WhereSumBound` | monit/aggs/xrootd_aggs.py:6 | selecting rows never raises a column sum |
| `Frames.Values` | monit/aggs/xrootd_aggs.py:23-24 | a text column has one value per row, row by row, and a value occurs in it iff some row has it |
| `Frames.Distinct` | monit/aggs/xrootd_aggs.py:19-24 | the distinct values hold exactly the values of the input, none twice, and are no more than the input |
| `Frames.NUnique` | monit/aggs/xrootd_aggs.py:19-24 | `nunique` is the size of the set of values: at most the length, and positive on a non-empty sequence |
| `XrootdAggs.DropDuplicates` | monit/aggs/xrootd_aggs.py:7 | the result has the same `(file_name, file_size)` pairs as the input, each pair once, and only rows of the input |
| `XrootdAggs.DropDuplicatesSumBound` | monit/aggs/xrootd_aggs.py:7 | dropping duplicates never raises the `file_size` total |
| `XrootdAggs.WorkingSet` | monit/aggs/xrootd_aggs.py:5-8 | working_set is 0 on an empty table |
| `XrootdAggs.UniqueKeysSum` | monit/aggs/xrootd_aggs.py:7-8 | on rows with pairwise different `(file_name, file_size)` pairs, the `file_size` sum is the size total of their pair set |
| `XrootdAggs.WorkingSetIsSizeOfReadPairs` | monit/aggs/xrootd_aggs.py:5-8 | working_set is the total size of the distinct `(file_name, file_size)` pairs of the read rows, each counted once |
| `XrootdAggs.WorkingSetIgnoresChunked` | monit/aggs/xrootd_aggs.py:5-8 | working_set is the same for `chunked` true and false |
| `XrootdAggs.WorkingSetIgnoresNonReads` | monit/aggs/xrootd_aggs.py:6 | inserting a row whose operation is not "read" anywhere leaves working_set unchanged |
| `XrootdAggs.WorkingSetOfReadsOnly` | monit/aggs/xrootd_aggs.py:6 | removing every non-read row leaves working_set unchanged |
| `XrootdAggs.WorkingSetRepeatedPair` | monit/aggs/xrootd_aggs.py:6-8 | inserting a read row whose pair is already read leaves working_set unchanged |
| `XrootdAggs.WorkingSetNewPair` | monit/aggs/xrootd_aggs.py:6-8 | appending a read row with a new pair (e.g. same name, other size) adds exactly its `file_size` |
| `XrootdAggs.WorkingSetBounds` | monit/aggs/xrootd_aggs.py:5-12 | working_set is at most the `file_size` sum of the read rows, and at most total_naive_reads |
| `XrootdAggs.TotalNaiveReads` | monit/aggs/xrootd_aggs.py:11-12 | total_naive_reads is 0 on an empty table |
| `XrootdAggs.TotalActualReads` | monit/aggs/xrootd_aggs.py:15-16 | total_actual_reads is 0 on an empty table |
| `XrootdAggs.TotalsAdditive` | monit/aggs/xrootd_aggs.py:11-16 | both plain totals of `a + b` are the totals of `a` plus those of `b` |
| `XrootdAggs.TotalsAppend` | monit/aggs/xrootd_aggs.py:11-16 | appending a row adds exactly its `file_size` to total_naive_reads and its `read_bytes` to total_actual_reads |
| `XrootdAggs.NumUniqueFiles` | monit/aggs/xrootd_aggs.py:23-24 | num_unique_files is at most the number of rows, so 0 on an empty table |
| `XrootdAggs.NumUniqueFilesIsCardinality` | monit/aggs/xrootd_aggs.py:23-24 | num_unique_files is the size of the set of file names |
| `XrootdAggs.NumUniqueFileAccess` | monit/aggs/xrootd_aggs.py:19-20 | num_unique_file_access is 0 on an empty table |
| `XrootdAggs.GroupNUnique` | monit/aggs/xrootd_aggs.py:20 | one group's `app_info.nunique()` is the number of distinct `app_info` values among the rows of that file, and positive exactly when the file occurs (`GroupIsPairs` relates it to the `(file_name, app_info)` pairs) |
| `XrootdAggs.GroupCountsSum` | monit/aggs/xrootd_aggs.py:20 | the `.sum()` over the groups is at least one per file name that occurs in the table (`GroupCountsSumIsPairs` gives its exact value as a pair count) |
| `XrootdAggs.GroupIsPairs` | monit/aggs/xrootd_aggs.py:20 | one group's distinct `app_info` count is the number of `(file_name, app_info)` pairs with that file name |
| `XrootdAggs.GroupCountsSumIsPairs` | monit/aggs/xrootd_aggs.py:20 | summing the groups of distinct file names counts the distinct pairs with those names |
| `XrootdAggs.NumUniqueFileAccessIsPairCount` | monit/aggs/xrootd_aggs.py:19-20 | num_unique_file_access is the number of distinct `(file_name, app_info)` pairs |
| `XrootdAggs.AccessPairsAtMostRows` | monit/aggs/xrootd_aggs.py:19-20 | a table has no more distinct `(file_name, app_info)` pairs than rows |
| `XrootdAggs.UniqueFileAccessBounds` | monit/aggs/xrootd_aggs.py:19-24 | num_unique_files <= num_unique_file_access <= number of rows |
| `XrootdAggs.CountsDependOnlyOnRows` | monit/aggs/xrootd_aggs.py:5-24 | tables with the same rows, however repeated or ordered, have the same working_set, num_unique_files and num_unique_file_access |
| `XrootdAggs.PermutationInvariant` | monit/aggs/xrootd_aggs.py:5-24 | all five raw aggregations are equal on any two permutations of a table |
| `XrootdAggs.ExampleWorkingSet` | monit/aggs/xrootd_aggs.py:5-8 | two reads of one `(file_name, file_size)` pair plus a write give working_set equal to that one size |
| `XrootdAggs.ExampleTotals` | monit/aggs/xrootd_aggs.py:11-16 | on three rows the totals are the sums of the three sizes and the three read byte counts |
| `XrootdAggs.ExampleUniqueFiles` | monit/aggs/xrootd_aggs.py:23-24 | two rows of one file and a row of another give num_unique_files = 2 |
| `XrootdAggs.ExampleUniqueFileAccess` | monit/aggs/xrootd_aggs.py:19-20 | one file read in two contexts and another in one give num_unique_file_access = 3 |
| `XrootdAggs.Terabytes` | monit/aggs/xrootd_aggs.py:8 | the terabyte value times 10^12 is the byte count, exactly, and is non-negative |

## Left out

- The `agg_wrapper` registration decorator and its metadata (`source_name`,
  `post_agg`), lines 1, 4, 10, 14, 18, 22, 26, 30 and 34. `agg_utils` is not
  part of this model, so how results are keyed and dispatched is unknown.
- The post-aggregations `reuse_mult_1`, `reuse_mult_2` and `reuse_mult_3`
  (lines 27-36). They are floating-point ratios over a results dictionary
  filled by an external orchestrator. Their division is unguarded and gives
  infinity or NaN on a zero denominator, which Dafny's `real` cannot represent.
  The key `"num_unique_file_accesses"` read at line 28 does not match the name
  `num_unique_file_access` at line 19. Whether that lookup fails depends on the
  wrapper, which is not part of this model.
- The floating-point division by `1e12` (lines 8, 12 and 16), and the rounding
  it brings. The aggregations return integer bytes, and `Terabytes` is an exact
  rational quotient.
- Machine integer widths and overflow of the data-frame sums: all sums are
  unbounded.
- Data-frame behaviour the model excludes by its types: missing values (NaN) in
  `nunique` and `sum`, dtype coercion, and missing-column errors. Names and
  `app_info` are non-null strings and sizes are `nat`. In particular `nunique`
  skips missing values, so in the Python code a file whose `app_info` values
  are all missing counts in `num_unique_files` but adds 0 to
  `num_unique_file_access`. `UniqueFileAccessBounds` holds only for tables
  without missing `app_info`.
- Chunked or partitioned evaluation. The `chunked` flag of `working_set` is
  never read, and any rule for combining partial results lives outside this
  file.
- The group order of `groupby`: the data-frame library sorts the group keys,
  while `NumUniqueFileAccess` visits groups in order of first appearance. The
  sum does not depend on the order; `NumUniqueFileAccessIsPairCount` states the
  result without reference to any order.
