/**
 `parallel_count_occurrences(df, column)`: split the table into four chunks,
 count each chunk, and fold the partial count mappings into one.
 The thread pool only evaluates the per-chunk counts; `executor.map` hands
 them back in chunk order and the fold runs on the calling thread, so the
 model evaluates the counts as a plain sequence and merges sequentially.
 */
module ParallelCount {
  import opened Counting
  import opened Partition

  /** Number of chunks `np.array_split` is asked for. */
  const Chunks: nat := 4

  /** Sum of the counts of `k` over the partial mappings (a mapping without `k` contributes 0). */
  function CountAt<V>(partials: seq<map<V, nat>>, k: V): nat
  {
    if partials == [] then 0
    else CountAt(partials[..|partials| - 1], k) + Get(partials[|partials| - 1], k)
  }

  /** Union of the key sets of the partial mappings. */
  function KeysOf<V>(partials: seq<map<V, nat>>): set<V>
  {
    if partials == [] then {}
    else KeysOf(partials[..|partials| - 1]) + partials[|partials| - 1].Keys
  }

  /**
   The merge loop of `parallel_count_occurrences`: for every partial mapping,
   for every (key, value) pair, add to the running entry or insert it. The
   result has exactly the keys of the partials, each with the sum of its
   partial counts.
   */
  method Merge<V>(partials: seq<map<V, nat>>) returns (finalResult: map<V, nat>)
    ensures finalResult.Keys == KeysOf(partials)
    ensures forall k :: k in finalResult ==> finalResult[k] == CountAt(partials, k)
  {
    finalResult := map[];
    var i := 0;
    while i < |partials|
      invariant 0 <= i <= |partials|
      invariant finalResult.Keys == KeysOf(partials[..i])
      invariant forall k :: k in finalResult ==> finalResult[k] == CountAt(partials[..i], k)
    {
      var result := partials[i];
      var pending := result.Keys;
      ghost var before := finalResult;
      while pending != {}
        invariant pending <= result.Keys
        invariant finalResult.Keys == before.Keys + (result.Keys - pending)
        invariant forall k :: k in finalResult ==>
          finalResult[k] == Get(before, k) + (if k in result && k !in pending then result[k] else 0)
        decreases pending
      {
        var key :| key in pending;
        var value := result[key];
        if key in finalResult {
          finalResult := finalResult[key := finalResult[key] + value];
        } else {
          finalResult := finalResult[key := value];
        }
        pending := pending - {key};
      }
      assert partials[..i + 1][..i] == partials[..i];
      forall k | k in finalResult && k !in before {
        CountAtOutsideKeys(partials[..i], k);
      }
      i := i + 1;
    }
    assert partials[..|partials|] == partials;
  }

  /** A key that no partial holds sums to 0. */
  lemma {:induction false} CountAtOutsideKeys<V>(partials: seq<map<V, nat>>, k: V)
    requires k !in KeysOf(partials)
    ensures CountAt(partials, k) == 0
  {
    if partials != [] {
      CountAtOutsideKeys(partials[..|partials| - 1], k);
    }
  }

  /** Keys are never removed and counts never decrease as more partials are merged. */
  lemma {:induction false} MergeMonotone<V>(partials: seq<map<V, nat>>, i: nat, j: nat, k: V)
    requires i <= j <= |partials|
    ensures KeysOf(partials[..i]) <= KeysOf(partials[..j])
    ensures CountAt(partials[..i], k) <= CountAt(partials[..j], k)
    decreases j - i
  {
    if i < j {
      MergeMonotone(partials, i, j - 1, k);
      assert partials[..j][..j - 1] == partials[..j - 1];
    }
  }

  /** Summing is additive over a split of the sequence of partials. */
  lemma {:induction false} CountAtConcat<V>(a: seq<map<V, nat>>, b: seq<map<V, nat>>, k: V)
    ensures CountAt(a + b, k) == CountAt(a, k) + CountAt(b, k)
    ensures KeysOf(a + b) == KeysOf(a) + KeysOf(b)
    decreases |b|
  {
    if b == [] {
      assert a + b == a;
    } else {
      var b' := b[..|b| - 1];
      assert (a + b)[..|a + b| - 1] == a + b';
      CountAtConcat(a, b', k);
    }
  }

  /** Taking one partial out of the sequence takes exactly its contribution out of the merge. */
  lemma RemoveOne<V>(b: seq<map<V, nat>>, j: nat, k: V)
    requires j < |b|
    ensures multiset(b[..j] + b[j + 1..]) == multiset(b) - multiset{b[j]}
    ensures CountAt(b, k) == CountAt(b[..j] + b[j + 1..], k) + Get(b[j], k)
    ensures KeysOf(b) == KeysOf(b[..j] + b[j + 1..]) + b[j].Keys
  {
    var x := b[j];
    assert b == b[..j] + [x] + b[j + 1..];
    assert multiset(b) == multiset(b[..j]) + multiset{x} + multiset(b[j + 1..]);
    CountAtConcat(b[..j], b[j + 1..], k);
    CountAtConcat(b[..j] + [x], b[j + 1..], k);
    CountAtConcat(b[..j], [x], k);
  }

  /**
   The merged result does not depend on the order in which the partials are
   processed: any permutation of them gives the same keys and the same sums.
   */
  lemma {:induction false} MergeOrderIndependent<V>(a: seq<map<V, nat>>, b: seq<map<V, nat>>, k: V)
    requires multiset(a) == multiset(b)
    ensures KeysOf(a) == KeysOf(b)
    ensures CountAt(a, k) == CountAt(b, k)
    decreases |a|
  {
    if a == [] {
      assert |b| == |multiset(b)| == 0;
    } else {
      var a', x := a[..|a| - 1], a[|a| - 1];
      assert a == a' + [x];
      assert multiset(a') == multiset(a) - multiset{x};
      assert x in multiset(b);
      var j :| 0 <= j < |b| && b[j] == x;
      RemoveOne(b, j, k);
      MergeOrderIndependent(a', b[..j] + b[j + 1..], k);
    }
  }

  /** `executor.map(count_occurrences, chunks)`: one count mapping per chunk, in chunk order. */
  function ChunkCounts<R, V>(chunks: seq<seq<R>>, column: R -> V): seq<map<V, nat>>
  {
    seq(|chunks|, i requires 0 <= i < |chunks| => CountOccurrences(Column(chunks[i], column)))
  }

  /** Merging the counts of the chunks gives, key by key, the count over all their rows. */
  lemma {:induction false} ChunkCountsAddUp<R, V>(chunks: seq<seq<R>>, column: R -> V, k: V)
    ensures CountAt(ChunkCounts(chunks, column), k) == Count(Column(Flatten(chunks), column), k)
    ensures k in KeysOf(ChunkCounts(chunks, column)) <==> k in Column(Flatten(chunks), column)
  {
    if chunks != [] {
      var prefix, last := chunks[..|chunks| - 1], chunks[|chunks| - 1];
      ChunkCountsAddUp(prefix, column, k);
      assert ChunkCounts(chunks, column)[..|chunks| - 1] == ChunkCounts(prefix, column);
      ColumnConcat(Flatten(prefix), last, column);
      CountConcat(Column(Flatten(prefix), column), Column(last, column), k);
      CountPositiveIffPresent(Column(last, column), k);
      CountPositiveIffPresent(Column(Flatten(prefix), column), k);
      CountPositiveIffPresent(Column(Flatten(chunks), column), k);
    }
  }

  /**
   Splitting into any positive number of chunks, counting each chunk and merging
   gives, key by key, the count over the whole column: no row is counted twice
   and none is dropped.
   */
  lemma SplitCountMergeIsCount<R, V>(rows: seq<R>, column: R -> V, n: nat, k: V)
    requires n > 0
    ensures CountAt(ChunkCounts(ArraySplit(rows, n), column), k) == Count(Column(rows, column), k)
    ensures k in KeysOf(ChunkCounts(ArraySplit(rows, n), column)) <==> k in Column(rows, column)
  {
    ChunkCountsAddUp(ArraySplit(rows, n), column, k);
  }

  /**
   `parallel_count_occurrences`: the merged per-chunk counts equal
   `count_occurrences` over the whole table.
   */
  method ParallelCountOccurrences<R, V>(rows: seq<R>, column: R -> V) returns (finalResult: map<V, nat>)
    ensures finalResult == CountOccurrences(Column(rows, column))
  {
    var chunks := ArraySplit(rows, Chunks);
    var results := ChunkCounts(chunks, column);
    finalResult := Merge(results);
    var whole := CountOccurrences(Column(rows, column));
    forall k | k in finalResult || k in whole
      ensures k in finalResult && k in whole && finalResult[k] == whole[k]
    {
      SplitCountMergeIsCount(rows, column, Chunks, k);
    }
  }
}
