/**
 Positional partitioning as done by `np.array_split(df, n)`: `n` contiguous
 chunks whose sizes differ by at most one, the larger chunks first.
 */
module Partition {

  /** Rows in chunk `i` of `n` when `m` rows are split: `m / n`, plus one for the first `m % n` chunks. */
  function ChunkSize(m: nat, n: nat, i: nat): nat
    requires n > 0
  {
    m / n + (if i < m % n then 1 else 0)
  }

  /** Offset at which chunk `i` starts: the running sum of the sizes of the chunks before it. */
  function Boundary(m: nat, n: nat, i: nat): nat
    requires n > 0 && i <= n
  {
    if i == 0 then 0 else Boundary(m, n, i - 1) + ChunkSize(m, n, i - 1)
  }

  /**
   The running sum has numpy's closed form `i * (m / n) + min(i, m % n)`, never
   passes the end, and reaches `m` after the last chunk.
   */
  lemma {:induction false} BoundaryClosedForm(m: nat, n: nat, i: nat)
    requires n > 0 && i <= n
    ensures Boundary(m, n, i) == i * (m / n) + (if i < m % n then i else m % n)
    ensures Boundary(m, n, i) <= m
    ensures i == n ==> Boundary(m, n, i) == m
  {
    if i > 0 {
      var q, r := m / n, m % n;
      BoundaryClosedForm(m, n, i - 1);
      StepArithmetic(q, r, m, n, i);
      assert Boundary(m, n, i) == Boundary(m, n, i - 1) + q + (if i - 1 < r then 1 else 0);
    }
  }

  lemma StepArithmetic(q: nat, r: nat, m: nat, n: nat, i: nat)
    requires 0 < i <= n && q == m / n && r == m % n
    ensures (i - 1) * q + q == i * q
    ensures i * q + (if i < r then i else r) <= m
    ensures i == n ==> i * q + r == m
  {
    assert (i - 1) * q + q == i * q;
    assert n * q + r == m;
    assert n * q == i * q + (n - i) * q;
    assert (n - i) * q >= 0;
  }

  /** All chunks laid end to end, in chunk order. */
  function Flatten<T>(chunks: seq<seq<T>>): seq<T>
  {
    if chunks == [] then []
    else Flatten(chunks[..|chunks| - 1]) + chunks[|chunks| - 1]
  }

  /**
   `np.array_split(rows, n)`: exactly `n` chunks (some empty when there are
   fewer rows than chunks) that put the rows back together in their original
   order, each of the size `ChunkSize` prescribes.
   */
  function ArraySplit<T>(rows: seq<T>, n: nat): (chunks: seq<seq<T>>)
    requires n > 0
    ensures |chunks| == n
    ensures Flatten(chunks) == rows
    ensures forall i :: 0 <= i < n ==> |chunks[i]| == ChunkSize(|rows|, n, i)
  {
    var chunks := seq(n, i requires 0 <= i < n => Chunk(rows, n, i));
    FlattenPrefix(rows, n, chunks, n);
    BoundaryClosedForm(|rows|, n, n);
    assert chunks[..n] == chunks;
    chunks
  }

  /** Chunk `i` of a split: the rows from its boundary up to the next one. */
  function Chunk<T>(rows: seq<T>, n: nat, i: nat): (chunk: seq<T>)
    requires i < n
    ensures |chunk| == ChunkSize(|rows|, n, i)
  {
    var lo, hi := Boundary(|rows|, n, i), Boundary(|rows|, n, i + 1);
    BoundaryClosedForm(|rows|, n, i + 1);
    rows[lo..hi]
  }

  /** The first `k` chunks of a split cover exactly the rows before chunk `k`'s start. */
  lemma {:induction false} FlattenPrefix<T>(rows: seq<T>, n: nat, chunks: seq<seq<T>>, k: nat)
    requires n > 0 && k <= n && |chunks| == n
    requires forall i :: 0 <= i < n ==> chunks[i] == Chunk(rows, n, i)
    ensures Boundary(|rows|, n, k) <= |rows|
    ensures Flatten(chunks[..k]) == rows[..Boundary(|rows|, n, k)]
  {
    BoundaryClosedForm(|rows|, n, k);
    if k > 0 {
      FlattenPrefix(rows, n, chunks, k - 1);
      assert chunks[..k][..k - 1] == chunks[..k - 1];
      var lo, hi := Boundary(|rows|, n, k - 1), Boundary(|rows|, n, k);
      assert Flatten(chunks[..k]) == Flatten(chunks[..k - 1]) + chunks[k - 1];
      assert chunks[k - 1] == rows[lo..hi];
      assert rows[..hi] == rows[..lo] + rows[lo..hi];
    }
  }

  /** Chunk sizes differ by at most one, and no chunk is larger than one before it. */
  lemma ChunksBalanced<T>(rows: seq<T>, n: nat, i: nat, j: nat)
    requires n > 0 && i < j < n
    ensures |ArraySplit(rows, n)[j]| <= |ArraySplit(rows, n)[i]| <= |ArraySplit(rows, n)[j]| + 1
  {
  }

  /** Sum of the sizes of the chunks. */
  function SumSizes<T>(chunks: seq<seq<T>>): nat
  {
    if chunks == [] then 0 else SumSizes(chunks[..|chunks| - 1]) + |chunks[|chunks| - 1]|
  }

  lemma {:induction false} FlattenLength<T>(chunks: seq<seq<T>>)
    ensures |Flatten(chunks)| == SumSizes(chunks)
  {
    if chunks != [] {
      FlattenLength(chunks[..|chunks| - 1]);
    }
  }

  /** The chunk sizes add up to the number of rows: no row is dropped or repeated. */
  lemma SplitSizesSumToRows<T>(rows: seq<T>, n: nat)
    requires n > 0
    ensures SumSizes(ArraySplit(rows, n)) == |rows|
  {
    FlattenLength(ArraySplit(rows, n));
  }
}
