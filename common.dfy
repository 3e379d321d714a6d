/** Shared vocabulary of the school store: optional values, results, row ids. */
module Common {

  datatype Option<T> = None | Some(value: T) {
    /** The value, or `default` when there is none. */
    function GetOr(default: T): T
    {
      match this
      case Some(v) => v
      case None => default
    }
  }

  datatype Result<T, E> = Ok(value: T) | Err(error: E)

  /** A field of a request body: left out, given as null, or given with a value. */
  datatype Supplied<T> = Omitted | Null | Given(v: T)

  /** A primary key. The database hands out positive keys; 0 never names a row. */
  type Id = nat

  /** The largest key in a table, 0 for an empty table. */
  function MaxKey<T>(rows: seq<T>, key: T -> nat): (m: nat)
    ensures forall i :: 0 <= i < |rows| ==> key(rows[i]) <= m
    ensures rows == [] ==> m == 0
    ensures rows != [] ==> exists i :: 0 <= i < |rows| && key(rows[i]) == m
  {
    if rows == [] then 0
    else
      var rest := MaxKey(rows[1..], key);
      assert forall i :: 1 <= i < |rows| ==> rows[i] == rows[1..][i - 1];
      if key(rows[0]) >= rest then key(rows[0]) else rest
  }

  /** The key an auto-increment column gives the next inserted row: one past the largest key. */
  function NextKey<T>(rows: seq<T>, key: T -> nat): (k: nat)
    ensures k > 0
    ensures forall i :: 0 <= i < |rows| ==> key(rows[i]) < k
  {
    MaxKey(rows, key) + 1
  }

  /** Every row of the table has its own key. */
  ghost predicate KeysDistinct<T>(rows: seq<T>, key: T -> nat)
  {
    forall i, j :: 0 <= i < j < |rows| ==> key(rows[i]) != key(rows[j])
  }

  /** Appending a row whose key is one past the largest keeps the keys distinct. */
  lemma AppendNextKeyDistinct<T>(rows: seq<T>, key: T -> nat, row: T)
    requires KeysDistinct(rows, key)
    requires key(row) == NextKey(rows, key)
    ensures KeysDistinct(rows + [row], key)
  {
    var rows' := rows + [row];
    forall i, j | 0 <= i < j < |rows'| ensures key(rows'[i]) != key(rows'[j]) {
      if j == |rows| {
        assert rows'[i] == rows[i];
      } else {
        assert rows'[i] == rows[i] && rows'[j] == rows[j];
      }
    }
  }

  /** `queryset.filter(...)` over a table in key order: the rows satisfying `keep`, in order. */
  function Filter<T(!new)>(rows: seq<T>, keep: T -> bool): (r: seq<T>)
    ensures |r| <= |rows|
    ensures forall x :: x in r <==> x in rows && keep(x)
  {
    if rows == [] then []
    else
      assert forall x :: x in rows <==> x == rows[0] || x in rows[1..];
      (if keep(rows[0]) then [rows[0]] else []) + Filter(rows[1..], keep)
  }

  /** Filtering keeps the order of the rows it keeps, so a relation that holds between every
      earlier and later row still holds after filtering. */
  lemma {:induction false} FilterKeepsPairwise<T(!new)>(rows: seq<T>, keep: T -> bool, ok: (T, T) -> bool)
    requires forall i, j :: 0 <= i < j < |rows| ==> ok(rows[i], rows[j])
    ensures forall i, j :: 0 <= i < j < |Filter(rows, keep)| ==> ok(Filter(rows, keep)[i], Filter(rows, keep)[j])
    decreases |rows|
  {
    if rows != [] {
      var tail := rows[1..];
      forall i, j | 0 <= i < j < |tail| ensures ok(tail[i], tail[j]) {
        assert tail[i] == rows[i + 1] && tail[j] == rows[j + 1];
      }
      FilterKeepsPairwise(tail, keep, ok);
      var ft := Filter(tail, keep);
      var r := Filter(rows, keep);
      if keep(rows[0]) {
        assert r == [rows[0]] + ft;
        forall i, j | 0 <= i < j < |r| ensures ok(r[i], r[j]) {
          if i == 0 {
            assert r[j] == ft[j - 1];
            assert ft[j - 1] in tail;
            var k :| 0 <= k < |tail| && tail[k] == ft[j - 1];
            assert tail[k] == rows[k + 1];
            assert ok(rows[0], rows[k + 1]);
          } else {
            assert r[i] == ft[i - 1] && r[j] == ft[j - 1];
            assert ok(ft[i - 1], ft[j - 1]);
          }
        }
      } else {
        assert r == ft;
      }
    }
  }

  /** Appending a row related to every row before it keeps a relation pairwise. */
  lemma AppendKeepsPairwise<T>(rows: seq<T>, row: T, ok: (T, T) -> bool)
    requires forall i, j :: 0 <= i < j < |rows| ==> ok(rows[i], rows[j])
    requires forall i :: 0 <= i < |rows| ==> ok(rows[i], row)
    ensures forall i, j :: 0 <= i < j < |rows + [row]| ==> ok((rows + [row])[i], (rows + [row])[j])
  {
    var after := rows + [row];
    forall i, j | 0 <= i < j < |after| ensures ok(after[i], after[j]) {
      if j < |rows| {
        assert after[i] == rows[i] && after[j] == rows[j];
      } else {
        assert after[i] == rows[i];
      }
    }
  }

  /** Filtering a table keeps its keys distinct. */
  lemma FilterKeepsKeysDistinct<T(!new)>(rows: seq<T>, keep: T -> bool, key: T -> nat)
    requires KeysDistinct(rows, key)
    ensures KeysDistinct(Filter(rows, keep), key)
  {
    FilterKeepsPairwise(rows, keep, (a: T, b: T) => key(a) != key(b));
  }

  /** A subset is no larger than its superset. */
  lemma {:induction false} SubsetCardinality<T>(a: set<T>, b: set<T>)
    requires a <= b
    ensures |a| <= |b|
    decreases |b|
  {
    if b != {} {
      var x :| x in b;
      SubsetCardinality(a - {x}, b - {x});
    }
  }
}
