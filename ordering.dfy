/**
 * `order_by('-field')` / `Meta.ordering = ['-field']`: rows listed by a timestamp,
 * newest first. Rows with equal timestamps keep their table order. Also the order in which
 * a collation sorts text: lexicographic on the collation's sort keys.
 */
module Ordering {

  ghost predicate NewestFirst<T>(rows: seq<T>, stamp: T -> int)
  {
    forall i, j :: 0 <= i < j < |rows| ==> stamp(rows[i]) >= stamp(rows[j])
  }

  /** Places `row` in front of the first row that is not newer than it. */
  function Insert<T>(row: T, sorted: seq<T>, stamp: T -> int): (r: seq<T>)
    ensures multiset(r) == multiset(sorted) + multiset{row}
    decreases |sorted|
  {
    if sorted == [] || stamp(row) >= stamp(sorted[0]) then [row] + sorted
    else
      assert sorted == [sorted[0]] + sorted[1..];
      [sorted[0]] + Insert(row, sorted[1..], stamp)
  }

  lemma {:induction false} InsertKeepsOrder<T>(row: T, sorted: seq<T>, stamp: T -> int)
    requires NewestFirst(sorted, stamp)
    ensures NewestFirst(Insert(row, sorted, stamp), stamp)
    decreases |sorted|
  {
    if sorted != [] && stamp(row) < stamp(sorted[0]) {
      var tail := sorted[1..];
      assert NewestFirst(tail, stamp) by {
        forall i, j | 0 <= i < j < |tail| ensures stamp(tail[i]) >= stamp(tail[j]) {
          assert tail[i] == sorted[i + 1] && tail[j] == sorted[j + 1];
        }
      }
      InsertKeepsOrder(row, tail, stamp);
      var ins := Insert(row, tail, stamp);
      var r := [sorted[0]] + ins;
      forall k | 0 <= k < |ins| ensures stamp(sorted[0]) >= stamp(ins[k]) {
        assert ins[k] in multiset(ins);
        assert ins[k] == row || ins[k] in multiset(tail);
        if ins[k] != row {
          var m :| 0 <= m < |tail| && tail[m] == ins[k];
          assert tail[m] == sorted[m + 1];
        }
      }
      forall i, j | 0 <= i < j < |r| ensures stamp(r[i]) >= stamp(r[j]) {
        if i == 0 {
          assert r[j] == ins[j - 1];
        } else {
          assert r[i] == ins[i - 1] && r[j] == ins[j - 1];
        }
      }
    }
  }

  /** The rows of a table, newest first. */
  function SortNewestFirst<T>(rows: seq<T>, stamp: T -> int): (r: seq<T>)
    ensures multiset(r) == multiset(rows)
    decreases |rows|
  {
    if rows == [] then []
    else
      assert rows == [rows[0]] + rows[1..];
      Insert(rows[0], SortNewestFirst(rows[1..], stamp), stamp)
  }

  /** The listing is a permutation of the table, in newest-first order. */
  lemma {:induction false} SortNewestFirstIsSorted<T>(rows: seq<T>, stamp: T -> int)
    ensures NewestFirst(SortNewestFirst(rows, stamp), stamp)
    ensures multiset(SortNewestFirst(rows, stamp)) == multiset(rows)
    ensures |SortNewestFirst(rows, stamp)| == |rows|
    decreases |rows|
  {
    if rows != [] {
      SortNewestFirstIsSorted(rows[1..], stamp);
      InsertKeepsOrder(rows[0], SortNewestFirst(rows[1..], stamp), stamp);
    }
    assert |multiset(SortNewestFirst(rows, stamp))| == |multiset(rows)|;
  }

  /** `a` sorts strictly before `b`: at the first position where they differ `a` is smaller,
      or `a` is a proper prefix of `b`. */
  predicate LexLess(a: seq<int>, b: seq<int>)
    decreases |a|
  {
    if a == [] then b != []
    else b != [] && (a[0] < b[0] || (a[0] == b[0] && LexLess(a[1..], b[1..])))
  }

  lemma {:induction false} LexLessIrreflexive(a: seq<int>)
    ensures !LexLess(a, a)
    decreases |a|
  {
    if a != [] {
      LexLessIrreflexive(a[1..]);
    }
  }

  lemma {:induction false} LexLessTransitive(a: seq<int>, b: seq<int>, c: seq<int>)
    requires LexLess(a, b) && LexLess(b, c)
    ensures LexLess(a, c)
    decreases |a|
  {
    if a != [] && a[0] == b[0] && b[0] == c[0] {
      LexLessTransitive(a[1..], b[1..], c[1..]);
    }
  }

  /** Two different keys are ordered one way or the other. */
  lemma {:induction false} LexLessTotal(a: seq<int>, b: seq<int>)
    requires a != b
    ensures LexLess(a, b) || LexLess(b, a)
    decreases |a|
  {
    if a != [] && b != [] && a[0] == b[0] {
      assert a == [a[0]] + a[1..] && b == [b[0]] + b[1..];
      LexLessTotal(a[1..], b[1..]);
    }
  }

  /** "Not after" chains: if `a` is not before `b` and `b` is not before `c`, then `a` is not
      before `c`. */
  lemma NotBeforeChains(a: seq<int>, b: seq<int>, c: seq<int>)
    requires !LexLess(a, b) && !LexLess(b, c)
    ensures !LexLess(a, c)
  {
    if LexLess(a, c) {
      if b == c {
      } else {
        LexLessTotal(b, c);
        LexLessTransitive(a, c, b);
      }
    }
  }
}
