/**
 Row filter: `transform_data(df, column, filter_value)` keeps the rows whose
 value in `column` is strictly greater than `filter_value`, in their original
 order. The source tests whether the column holds dates and then runs the same
 comparison on both branches, so the model has one comparison over an ordered
 value type (`int`; a date is an instant on a time line and compares the same way).
 */
module Filter {

  /** `sub` is `s` with some entries dropped and the rest kept in their original order. */
  predicate IsSubsequence<R(==)>(sub: seq<R>, s: seq<R>)
  {
    if sub == [] then true
    else if s == [] then false
    else if sub[|sub| - 1] == s[|s| - 1] then IsSubsequence(sub[..|sub| - 1], s[..|s| - 1])
    else IsSubsequence(sub, s[..|s| - 1])
  }

  /** `transform_data`: every kept row passes the strict comparison. */
  function TransformData<R>(rows: seq<R>, column: R -> int, filterValue: int): (kept: seq<R>)
    ensures |kept| <= |rows|
    ensures forall i :: 0 <= i < |kept| ==> column(kept[i]) > filterValue
  {
    if rows == [] then []
    else
      var rest := TransformData(rows[..|rows| - 1], column, filterValue);
      if column(rows[|rows| - 1]) > filterValue then rest + [rows[|rows| - 1]] else rest
  }

  /**
   A row is kept as often as it occurs when it passes the comparison and never
   when it does not; in particular rows equal to the threshold are dropped.
   */
  lemma {:induction false} TransformDataKeepsExactly<R>(rows: seq<R>, column: R -> int, filterValue: int)
    ensures multiset(TransformData(rows, column, filterValue)) <= multiset(rows)
    ensures forall i :: 0 <= i < |rows| ==>
      multiset(TransformData(rows, column, filterValue))[rows[i]] ==
        if column(rows[i]) > filterValue then multiset(rows)[rows[i]] else 0
  {
    if rows != [] {
      var prefix, last := rows[..|rows| - 1], rows[|rows| - 1];
      TransformDataKeepsExactly(prefix, column, filterValue);
      assert rows == prefix + [last];
      var rest := TransformData(prefix, column, filterValue);
      assert multiset(rows) == multiset(prefix) + multiset{last};
      forall i | 0 <= i < |rows|
        ensures multiset(TransformData(rows, column, filterValue))[rows[i]] ==
          if column(rows[i]) > filterValue then multiset(rows)[rows[i]] else 0
      {
        var x := rows[i];
        if x != last {
          assert x in prefix by { assert prefix[i] == x; }
          var j :| 0 <= j < |prefix| && prefix[j] == x;
        } else if x !in prefix {
          assert multiset(prefix)[x] == 0;
          assert multiset(rest)[x] == 0;
        } else {
          var j :| 0 <= j < |prefix| && prefix[j] == x;
        }
      }
    }
  }

  /** The kept rows appear in the same order as in the table. */
  lemma {:induction false} TransformDataPreservesOrder<R>(rows: seq<R>, column: R -> int, filterValue: int)
    ensures IsSubsequence(TransformData(rows, column, filterValue), rows)
  {
    if rows != [] {
      var prefix, last := rows[..|rows| - 1], rows[|rows| - 1];
      var rest := TransformData(prefix, column, filterValue);
      TransformDataPreservesOrder(prefix, column, filterValue);
      if column(last) > filterValue {
        assert (rest + [last])[..|rest|] == rest;
      } else {
        SubsequenceOfPrefix(rest, prefix, last);
        assert prefix + [last] == rows;
      }
    }
  }

  /** A subsequence of a prefix is a subsequence of the whole. */
  lemma {:induction false} SubsequenceOfPrefix<R>(sub: seq<R>, s: seq<R>, x: R)
    requires IsSubsequence(sub, s)
    ensures IsSubsequence(sub, s + [x])
    decreases |s|, 1
  {
    assert (s + [x])[..|s|] == s;
    if sub != [] && sub[|sub| - 1] == x {
      SubsequenceDropLast(sub, s);
    }
  }

  /** Dropping the last entry of a subsequence leaves a subsequence. */
  lemma {:induction false} SubsequenceDropLast<R>(sub: seq<R>, s: seq<R>)
    requires sub != [] && IsSubsequence(sub, s)
    ensures IsSubsequence(sub[..|sub| - 1], s)
    decreases |s|, 0
  {
    var sub' := sub[..|sub| - 1];
    if sub[|sub| - 1] == s[|s| - 1] {
      SubsequenceOfPrefix(sub', s[..|s| - 1], s[|s| - 1]);
      assert s[..|s| - 1] + [s[|s| - 1]] == s;
    } else {
      SubsequenceDropLast(sub, s[..|s| - 1]);
      SubsequenceOfPrefix(sub', s[..|s| - 1], s[|s| - 1]);
      assert s[..|s| - 1] + [s[|s| - 1]] == s;
    }
  }

  /** Filtering a table in two parts and joining the results is filtering the whole table. */
  lemma {:induction false} TransformDataConcat<R>(a: seq<R>, b: seq<R>, column: R -> int, filterValue: int)
    ensures TransformData(a + b, column, filterValue) == TransformData(a, column, filterValue) + TransformData(b, column, filterValue)
    decreases |b|
  {
    if b == [] {
      assert a + b == a;
    } else {
      var b' := b[..|b| - 1];
      assert (a + b)[..|a + b| - 1] == a + b';
      var last := b[|b| - 1];
      assert (a + b)[|a + b| - 1] == last;
      TransformDataConcat(a, b', column, filterValue);
      var left, right := TransformData(a, column, filterValue), TransformData(b', column, filterValue);
      if column(last) > filterValue {
        assert (left + right) + [last] == left + (right + [last]);
      }
    }
  }

  /** Filtering an already filtered table with the same threshold changes nothing. */
  lemma {:induction false} TransformDataIdempotent<R>(rows: seq<R>, column: R -> int, filterValue: int)
    ensures TransformData(TransformData(rows, column, filterValue), column, filterValue) == TransformData(rows, column, filterValue)
  {
    if rows != [] {
      var prefix, last := rows[..|rows| - 1], rows[|rows| - 1];
      var rest := TransformData(prefix, column, filterValue);
      TransformDataIdempotent(prefix, column, filterValue);
      if column(last) > filterValue {
        TransformDataConcat(rest, [last], column, filterValue);
      }
    }
  }
}
