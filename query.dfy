/**
 * The three ways the handlers read and write a table, over a table kept as a
 * sequence of rows in insertion order:
 *  - `filter_by(...).first()` and `get_or_404(id)`: the first row that matches;
 *  - `filter_by(...).all()`: every matching row, in table order;
 *  - the row id the engine gives a new row: one more than the largest id in
 *    the table, and 1 for an empty table (SQLite's rowid rule).
 */
module Query {
  import opened Wrappers

  /** Position of the first row satisfying `p`, or None when no row does. */
  function FirstIndex<T>(rows: seq<T>, p: T -> bool): (r: Option<nat>)
    ensures r.Some? ==> r.value < |rows| && p(rows[r.value])
    ensures r.Some? ==> forall j :: 0 <= j < r.value ==> !p(rows[j])
    ensures r.None? <==> forall j :: 0 <= j < |rows| ==> !p(rows[j])
  {
    if |rows| == 0 then None
    else if p(rows[0]) then Some(0)
    else match FirstIndex(rows[1..], p)
      case None => None
      case Some(k) => Some(k + 1)
  }

  /** The rows satisfying `p`, in table order. */
  function Where<T>(rows: seq<T>, p: T -> bool): (r: seq<T>)
    ensures |r| <= |rows|
    ensures forall j :: 0 <= j < |r| ==> p(r[j])
  {
    if |rows| == 0 then []
    else (if p(rows[0]) then [rows[0]] else []) + Where(rows[1..], p)
  }

  /** The filtered table holds exactly the rows that pass the filter. */
  lemma {:induction false} WhereMembers<T(!new)>(rows: seq<T>, p: T -> bool)
    ensures forall x :: x in Where(rows, p) <==> x in rows && p(x)
  {
    if |rows| > 0 {
      WhereMembers(rows[1..], p);
      assert rows == [rows[0]] + rows[1..];
    }
  }

  /** Filtering a concatenation filters each part and keeps the parts in order. */
  lemma {:induction false} WhereAppend<T(!new)>(a: seq<T>, b: seq<T>, p: T -> bool)
    ensures Where(a + b, p) == Where(a, p) + Where(b, p)
  {
    if |a| == 0 {
      assert a + b == b;
    } else {
      assert (a + b)[1..] == a[1..] + b;
      WhereAppend(a[1..], b, p);
    }
  }

  /** A filter every row passes keeps the table as it is. */
  lemma {:induction false} WhereAll<T(!new)>(rows: seq<T>, p: T -> bool)
    requires forall j :: 0 <= j < |rows| ==> p(rows[j])
    ensures Where(rows, p) == rows
  {
    if |rows| > 0 {
      WhereAll(rows[1..], p);
    }
  }

  /** A filter no row passes leaves nothing. */
  lemma {:induction false} WhereNone<T(!new)>(rows: seq<T>, p: T -> bool)
    requires forall j :: 0 <= j < |rows| ==> !p(rows[j])
    ensures Where(rows, p) == []
  {
    if |rows| > 0 {
      WhereNone(rows[1..], p);
    }
  }

  /** A row that fails the filter is dropped from the front of a table. */
  lemma {:induction false} WhereSkip<T(!new)>(x: T, rows: seq<T>, p: T -> bool)
    requires !p(x)
    ensures Where([x] + rows, p) == Where(rows, p)
  {
    WhereAppend([x], rows, p);
    assert Where([x], p) == [];
  }

  /** A slice whose every row passes the filter is kept whole. */
  lemma {:induction false} WhereAllSlice<T(!new)>(rows: seq<T>, lo: nat, hi: nat, p: T -> bool)
    requires lo <= hi <= |rows|
    requires forall j :: lo <= j < hi ==> p(rows[j])
    ensures Where(rows[lo..hi], p) == rows[lo..hi]
  {
    var slice := rows[lo..hi];
    forall j | 0 <= j < |slice| ensures p(slice[j]) {
      assert slice[j] == rows[lo + j];
    }
    WhereAll(slice, p);
  }

  /** A filter that rejects exactly the row at `k` removes that row and nothing else. */
  lemma {:induction false} WhereRemovesOne<T(!new)>(rows: seq<T>, k: nat, p: T -> bool)
    requires k < |rows| && !p(rows[k])
    requires forall j :: 0 <= j < |rows| && j != k ==> p(rows[j])
    ensures Where(rows, p) == rows[..k] + rows[k + 1..]
  {
    var before, after := rows[..k], rows[k + 1..];
    assert rows == before + ([rows[k]] + after);
    WhereAllSlice(rows, 0, k, p);
    assert rows[0..k] == before;
    WhereAllSlice(rows, k + 1, |rows|, p);
    assert rows[k + 1..|rows|] == after;
    WhereAppend(before, [rows[k]] + after, p);
    WhereSkip(rows[k], after, p);
  }

  /** No two rows share a value of `key` (a unique column or a primary key). */
  predicate Distinct<T, K(==)>(rows: seq<T>, key: T -> K) {
    forall i, j :: 0 <= i < j < |rows| ==> key(rows[i]) != key(rows[j])
  }

  /** The values of column `key` present in the table. */
  function Keys<T, K>(rows: seq<T>, key: T -> K): set<K> {
    set j | 0 <= j < |rows| :: key(rows[j])
  }

  /** Appending a row adds its key to the column's values. */
  lemma {:induction false} KeysAppend<T, K>(rows: seq<T>, x: T, key: T -> K)
    ensures Keys(rows + [x], key) == Keys(rows, key) + {key(x)}
  {
    var after := rows + [x];
    assert after[|rows|] == x;
    forall k | k in Keys(rows, key) ensures k in Keys(after, key) {
      var j :| 0 <= j < |rows| && key(rows[j]) == k;
      assert after[j] == rows[j];
    }
  }

  /** Adding a row whose key is new keeps the column unique. */
  lemma {:induction false} DistinctAppend<T, K>(rows: seq<T>, x: T, key: T -> K)
    requires Distinct(rows, key)
    requires forall j :: 0 <= j < |rows| ==> key(rows[j]) != key(x)
    ensures Distinct(rows + [x], key)
  {
  }

  /** Removing the row at `k` keeps a column unique. */
  lemma {:induction false} DistinctRemove<T, K>(rows: seq<T>, k: nat, key: T -> K)
    requires k < |rows| && Distinct(rows, key)
    ensures Distinct(rows[..k] + rows[k + 1..], key)
  {
    var rest := rows[..k] + rows[k + 1..];
    forall i, j | 0 <= i < j < |rest| ensures key(rest[i]) != key(rest[j]) {
      var i', j' := if i < k then i else i + 1, if j < k then j else j + 1;
      assert rest[i] == rows[i'] && rest[j] == rows[j'];
    }
  }

  /** Filtering keeps a column unique. */
  lemma {:induction false} DistinctWhere<T(!new), K>(rows: seq<T>, key: T -> K, p: T -> bool)
    requires Distinct(rows, key)
    ensures Distinct(Where(rows, p), key)
  {
    if |rows| > 0 {
      var tail := rows[1..];
      assert Distinct(tail, key) by {
        forall i, j | 0 <= i < j < |tail| ensures key(tail[i]) != key(tail[j]) {
          assert tail[i] == rows[i + 1] && tail[j] == rows[j + 1];
        }
      }
      DistinctWhere(tail, key, p);
      var rest := Where(tail, p);
      WhereMembers(tail, p);
      forall j | 0 <= j < |rest| ensures key(rows[0]) != key(rest[j]) {
        assert rest[j] in tail;
        var m :| 0 <= m < |tail| && tail[m] == rest[j];
        assert rows[m + 1] == rest[j];
      }
    }
  }

  /** The largest value of `key` in the table, 0 for an empty table. */
  function MaxKey<T>(rows: seq<T>, key: T -> nat): (m: nat)
    ensures forall j :: 0 <= j < |rows| ==> key(rows[j]) <= m
    ensures rows == [] ==> m == 0
    ensures rows != [] ==> exists j :: 0 <= j < |rows| && key(rows[j]) == m
  {
    if |rows| == 0 then 0
    else
      var rest := MaxKey(rows[1..], key);
      if key(rows[0]) >= rest then key(rows[0]) else rest
  }

  /** The id the engine assigns to the next inserted row. */
  function NextKey<T>(rows: seq<T>, key: T -> nat): (k: nat)
    ensures k >= 1
    ensures forall j :: 0 <= j < |rows| ==> key(rows[j]) != k
    ensures k !in Keys(rows, key)
    ensures rows == [] ==> k == 1
  {
    MaxKey(rows, key) + 1
  }
}
