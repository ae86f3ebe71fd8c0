/**
 Categorical counting: `count_occurrences(df, column)` maps every distinct value
 of one column to the number of rows holding it (pandas `value_counts` turned
 into a dictionary).
 */
module Counting {

  /** The column `column` of a table: `df[column]`, one value per row, in row order. */
  function Column<R, V>(rows: seq<R>, column: R -> V): seq<V>
  {
    seq(|rows|, i requires 0 <= i < |rows| => column(rows[i]))
  }

  /** Selecting a column commutes with splitting the rows into two parts. */
  lemma ColumnConcat<R, V>(a: seq<R>, b: seq<R>, column: R -> V)
    ensures Column(a + b, column) == Column(a, column) + Column(b, column)
  {
  }

  /** Reference meaning of a count: how many entries of `s` equal `v`. */
  function Count<V(==)>(s: seq<V>, v: V): nat
  {
    if s == [] then 0
    else Count(s[..|s| - 1], v) + (if s[|s| - 1] == v then 1 else 0)
  }

  /** A count read from a count mapping; a value that is not a key counts 0. */
  function Get<V>(counts: map<V, nat>, v: V): nat
  {
    if v in counts then counts[v] else 0
  }

  /** Counting is additive over a split of the column into two parts. */
  lemma {:induction false} CountConcat<V>(a: seq<V>, b: seq<V>, v: V)
    ensures Count(a + b, v) == Count(a, v) + Count(b, v)
    decreases |b|
  {
    if b == [] {
      assert a + b == a;
    } else {
      var b' := b[..|b| - 1];
      assert (a + b)[..|a + b| - 1] == a + b';
      CountConcat(a, b', v);
    }
  }

  /** A value has a non-zero count exactly when it occurs in the column. */
  lemma {:induction false} CountPositiveIffPresent<V>(s: seq<V>, v: V)
    ensures Count(s, v) > 0 <==> v in s
  {
    if s != [] {
      var prefix := s[..|s| - 1];
      CountPositiveIffPresent(prefix, v);
      assert s == prefix + [s[|s| - 1]];
    }
  }

  /**
   `count_occurrences`: each key is a value that occurs in the column and is
   mapped to the number of entries equal to it; every value that occurs is a key.
   */
  function CountOccurrences<V(==)>(values: seq<V>): (counts: map<V, nat>)
    ensures forall v :: v in counts ==> v in values && counts[v] == Count(values, v)
    ensures forall i :: 0 <= i < |values| ==> values[i] in counts
    ensures forall v :: v in counts ==> counts[v] >= 1
  {
    if values == [] then map[]
    else
      var prefix := values[..|values| - 1];
      var last := values[|values| - 1];
      var counts := CountOccurrences(prefix);
      assert values == prefix + [last];
      CountPositiveIffPresent(prefix, last);
      counts[last := Get(counts, last) + 1]
  }

  /** Sum of all counts of a count mapping. */
  ghost function Total<V>(counts: map<V, nat>): nat
    decreases |counts|
  {
    if counts == map[] then 0
    else
      var k := Pick(counts);
      assert |counts - {k}| < |counts| by { assert (counts - {k}).Keys == counts.Keys - {k}; }
      counts[k] + Total(counts - {k})
  }

  ghost function Pick<V>(counts: map<V, nat>): (k: V)
    requires counts != map[]
    ensures k in counts
  {
    var k :| k in counts; k
  }

  /** The sum may be taken by removing any key first. */
  lemma {:induction false} TotalRemove<V>(counts: map<V, nat>, k: V)
    requires k in counts
    ensures Total(counts) == counts[k] + Total(counts - {k})
    decreases |counts|
  {
    var j := Pick(counts);
    if j != k {
      assert (counts - {j}).Keys == counts.Keys - {j};
      TotalRemove(counts - {j}, k);
      TotalRemove(counts - {k}, j);
      assert counts - {j} - {k} == counts - {k} - {j};
    }
  }

  /** Adding one occurrence of a value adds one to the sum of counts. */
  lemma TotalIncrement<V>(counts: map<V, nat>, v: V)
    ensures Total(counts[v := Get(counts, v) + 1]) == Total(counts) + 1
  {
    var bumped := counts[v := Get(counts, v) + 1];
    TotalRemove(bumped, v);
    if v in counts {
      TotalRemove(counts, v);
      assert bumped - {v} == counts - {v};
    } else {
      assert bumped - {v} == counts;
    }
  }

  /** For a column without missing values the counts add up to the number of rows. */
  lemma {:induction false} CountsSumToRows<V>(values: seq<V>)
    ensures Total(CountOccurrences(values)) == |values|
  {
    if values != [] {
      var prefix, last := values[..|values| - 1], values[|values| - 1];
      var counts := CountOccurrences(prefix);
      assert CountOccurrences(values) == counts[last := Get(counts, last) + 1];
      CountsSumToRows(prefix);
      TotalIncrement(counts, last);
    }
  }
}
