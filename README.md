# Parallel categorical counting and row filtering

A model of the data-processing core of `data_analysis.py`, a script that loads a
spreadsheet, counts the values of one column with a small map-reduce, computes
statistics, filters rows by a threshold and renders a report.

The model covers:

- **Counting** (`Counting`): `count_occurrences(df, column)` maps each distinct
  value of a column to the number of rows that hold it. A table is a sequence of
  rows of any type `R`; a column selector is a projection `R -> V`; `Column`
  is `df[column]`. `Count(s, v)` is the reference meaning of a count, and
  `Total` is the sum of the counts in a count mapping.
- **Partitioning** (`Partition`): `np.array_split(df, n)` cuts the rows into
  exactly `n` contiguous chunks. Chunk `i` has `M / n + 1` rows when
  `i < M % n` and `M / n` rows otherwise (larger chunks first). `Boundary` is
  the running sum of the chunk sizes, `Chunk` is the slice between two
  boundaries, and `Flatten` joins the chunks back together.
- **Parallel counting** (`ParallelCount`): `parallel_count_occurrences` splits
  the table into `Chunks` = 4 chunks and counts each chunk (`ChunkCounts`,
  the `executor.map` step). It then folds the partial mappings into
  `final_result` with the source's nested loop (`Merge`). The fold adds to an
  existing entry or inserts a new one. `CountAt` is the per-key sum over the
  partials, and `KeysOf` is the union of their key sets.
- **Row filter** (`Filter`): `transform_data(df, column, filter_value)` keeps
  the rows whose column value is strictly greater than the threshold, in their
  original order. Order is stated with `IsSubsequence`; `SubsequenceOfPrefix`
  and `SubsequenceDropLast` are general facts about that predicate used in the
  order proof. `FlattenPrefix` and `FlattenLength` play the same role for the
  split.

`np.array_split` gives one extra row to each of the first `M % 4` chunks, so
the larger chunks come first; `ArraySplit` and `ChunksBalanced` state this.

## Model

| member | source | states |
|---|---|---|
| Counting.ColumnConcat | data_analysis.py:36-37 | selecting the column of two joined row blocks gives the two columns joined, so splitting the table and then selecting the column is the same as selecting first |
| Counting.CountOccurrences | data_analysis.py:16-17 | every key occurs in the column and maps to exactly the number of entries equal to it, every occurring value is a key, and every count is at least 1 |
| Counting.CountPositiveIffPresent | data_analysis.py:16-17 | a value has a non-zero count if and only if it occurs in the column |
| Counting.CountConcat | data_analysis.py:36-44 | the count of a value over two joined parts is the sum of its counts over the parts |
| Counting.CountsSumToRows | data_analysis.py:16-17 | the counts of a column without missing values add up to the number of rows |
| Partition.BoundaryClosedForm | data_analysis.py:36 | chunk `i` starts at `i * (M / n) + min(i, M % n)`, never past the end, and the boundary after the last chunk is `M` |
| Partition.ArraySplit | data_analysis.py:36 | the split gives exactly `n` chunks, their concatenation in order is the original rows, and chunk `i` has `M / n` rows plus one when `i < M % n` |
| Partition.ChunksBalanced | data_analysis.py:36 | any two chunk sizes differ by at most one, and no chunk is larger than an earlier one |
| Partition.SplitSizesSumToRows | data_analysis.py:36 | the chunk sizes add up to the number of rows |
| ParallelCount.Merge | data_analysis.py:38-44 | the merged mapping's keys are exactly the union of the partial key sets, and each key maps to the sum of its counts over all partials (a missing key counts 0) |
| ParallelCount.CountAtOutsideKeys | data_analysis.py:38-44 | a key held by no partial sums to 0 |
| ParallelCount.MergeMonotone | data_analysis.py:39-44 | as more partials are merged, no key is removed and no count decreases |
| ParallelCount.CountAtConcat | data_analysis.py:39-44 | merging two runs of partials one after the other gives the sum of their counts and the union of their keys |
| ParallelCount.RemoveOne | data_analysis.py:39-44 | removing one partial from the sequence removes exactly its counts and keys from the merge |
| ParallelCount.MergeOrderIndependent | data_analysis.py:37-44 | any permutation of the partials gives the same merged keys and counts |
| ParallelCount.ChunkCountsAddUp | data_analysis.py:37-44 | merging the per-chunk counts gives, for each key, its count over all the chunks' rows, and the merged keys are the values that occur in them |
| ParallelCount.SplitCountMergeIsCount | data_analysis.py:34-45 | for any positive number of chunks, split, count and merge gives each value's count over the whole column, and exactly the values that occur in it as keys |
| ParallelCount.ParallelCountOccurrences | data_analysis.py:34-45 | `parallel_count_occurrences(df, column)` equals `count_occurrences(df, column)`: no row is counted twice or dropped |
| Filter.TransformData | data_analysis.py:27-31 | the result is no longer than the table, and every kept row's value is strictly greater than the threshold |
| Filter.TransformDataKeepsExactly | data_analysis.py:27-31 | a row that passes is kept as many times as it occurs, a row that does not pass is not kept (so rows equal to the threshold are dropped), and nothing outside the table appears |
| Filter.TransformDataPreservesOrder | data_analysis.py:27-31 | the kept rows are a subsequence of the table, in the original row order |
| Filter.TransformDataConcat | data_analysis.py:27-31 | filtering two blocks of rows and joining the results is the same as filtering the joined table |
| Filter.TransformDataIdempotent | data_analysis.py:27-31 | filtering an already filtered table with the same threshold changes nothing |

## Left out

- `read_excel` (data_analysis.py:11-13): spreadsheet parsing is file I/O done by a library.
- `calculate_statistics` (data_analysis.py:20-24): mean, median and standard deviation are floating-point values computed by pandas.
- `generate_report` and `generate_slides` (data_analysis.py:48-66): PDF and slide rendering are done by libraries.
- `main` (data_analysis.py:69-102): it uses a fixed file path, catches exceptions, prints results and measures wall-clock time.
- `ThreadPoolExecutor` (data_analysis.py:35-37): the pool only evaluates the per-chunk counts. `executor.map` returns them in chunk order, and the merge runs on one thread. So the counts are modelled as a sequence built in chunk order.
- Iteration order of dictionaries: the inner loop of `Merge` takes the keys of a partial in an unspecified order, and `value_counts` ordering by frequency is not modelled. A count mapping is a `map`, which has no order.
- Missing values: `value_counts` drops NaN. The model's column values are never missing.
- Unknown column names: `df[column]` raises KeyError for a column that does not exist. The model's column selector is a total projection, so this error path is not modelled.
- The date-or-number check in `transform_data` (data_analysis.py:28) and the threshold choice in `main` (data_analysis.py:84-87): both branches of `transform_data` run the same comparison. The model uses a single strict comparison over `int`, with dates read as points on an integer time line. Because the projection returns an `int`, every value is comparable with the threshold, so the TypeError that `df[column] > filter_value` raises for incomparable values (a text column against the `10` that `main` passes) is not modelled.
- `np.array_split` with zero sections raises an error in numpy. `ArraySplit` requires `n > 0` instead, since the source always passes 4.
