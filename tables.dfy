/** Rows of a relational table kept in insertion (primary-key) order, and the
    handful of queries the handlers run against them. A column is given by a
    key function from a row to the column's value. */
module Tables {

  datatype Option<+T> = None | Some(value: T)

  /** `filter_by(column=k).first()` and `query.get(k)`: the first row whose key is k. */
  function FindBy<T, K(==)>(rows: seq<T>, key: T -> K, k: K): (r: Option<T>)
    ensures r.Some? ==> r.value in rows && key(r.value) == k
    ensures r.None? <==> forall i :: 0 <= i < |rows| ==> key(rows[i]) != k
  {
    if rows == [] then None
    else if key(rows[0]) == k then Some(rows[0])
    else FindBy(rows[1..], key, k)
  }

  /** `filter_by(column=k).all()`: the rows whose key is k, in table order. */
  function Where<T(!new), K(==)>(rows: seq<T>, key: T -> K, k: K): (r: seq<T>)
    ensures forall x :: x in r <==> x in rows && key(x) == k
    ensures |r| <= |rows|
  {
    if rows == [] then []
    else (if key(rows[0]) == k then [rows[0]] else []) + Where(rows[1..], key, k)
  }

  /** The table after deleting every row whose key is k. */
  function Without<T(!new), K(==)>(rows: seq<T>, key: T -> K, k: K): (r: seq<T>)
    ensures forall x :: x in r <==> x in rows && key(x) != k
    ensures |r| <= |rows|
  {
    if rows == [] then []
    else (if key(rows[0]) != k then [rows[0]] else []) + Without(rows[1..], key, k)
  }

  /** Primary keys grow along the table (AUTO_INCREMENT). */
  ghost predicate Increasing<T>(rows: seq<T>, id: T -> int) {
    forall i, j :: 0 <= i < j < |rows| ==> id(rows[i]) < id(rows[j])
  }

  /** Every key is below `bound` (the next value the counter hands out). */
  ghost predicate Below<T>(rows: seq<T>, id: T -> int, bound: int) {
    forall x :: x in rows ==> id(x) < bound
  }

  /** A UNIQUE column: no two rows share a key. */
  ghost predicate Distinct<T, K>(rows: seq<T>, key: T -> K) {
    forall i, j :: 0 <= i < j < |rows| ==> key(rows[i]) != key(rows[j])
  }

  lemma IncreasingIsDistinct<T>(rows: seq<T>, id: T -> int)
    requires Increasing(rows, id)
    ensures Distinct(rows, id)
  {
  }

  /** In a UNIQUE column two rows with the same key are the same row. */
  lemma DistinctSameKey<T, K>(rows: seq<T>, key: T -> K, x: T, y: T)
    requires Distinct(rows, key) && x in rows && y in rows && key(x) == key(y)
    ensures x == y
  {
    var i :| 0 <= i < |rows| && rows[i] == x;
    var j :| 0 <= j < |rows| && rows[j] == y;
    assert !(i < j) && !(j < i);
  }

  /** In a UNIQUE column two different rows have different keys. */
  lemma DistinctKeysDiffer<T, K>(rows: seq<T>, key: T -> K, x: T, y: T)
    requires Distinct(rows, key) && x in rows && y in rows && x != y
    ensures key(x) != key(y)
  {
    var i :| 0 <= i < |rows| && rows[i] == x;
    var j :| 0 <= j < |rows| && rows[j] == y;
    assert i != j;
  }

  /** On a UNIQUE column the lookup finds exactly the row holding the key. */
  lemma {:induction false} FindByDistinct<T, K>(rows: seq<T>, key: T -> K, x: T)
    requires Distinct(rows, key) && x in rows
    ensures FindBy(rows, key, key(x)) == Some(x)
  {
    var r := FindBy(rows, key, key(x));
    assert r.Some? by {
      var i :| 0 <= i < |rows| && rows[i] == x;
    }
    DistinctSameKey(rows, key, r.value, x);
  }

  lemma {:induction false} WhereAppend<T(!new), K>(a: seq<T>, b: seq<T>, key: T -> K, k: K)
    ensures Where(a + b, key, k) == Where(a, key, k) + Where(b, key, k)
  {
    if a == [] {
      assert a + b == b;
    } else {
      assert (a + b)[1..] == a[1..] + b;
      WhereAppend(a[1..], b, key, k);
    }
  }

  /** No row carries the key: the query is empty. */
  lemma WhereNone<T(!new), K>(rows: seq<T>, key: T -> K, k: K)
    requires forall x :: x in rows ==> key(x) != k
    ensures Where(rows, key, k) == []
  {
    var r := Where(rows, key, k);
    assert forall i :: 0 <= i < |r| ==> r[i] in r;
  }

  /** Every row carries the key: the query returns the whole table. */
  lemma {:induction false} WhereAll<T(!new), K>(rows: seq<T>, key: T -> K, k: K)
    requires forall x :: x in rows ==> key(x) == k
    ensures Where(rows, key, k) == rows
  {
    if rows != [] {
      assert rows[0] in rows;
      forall x | x in rows[1..] ensures key(x) == k {
        assert x in rows;
      }
      WhereAll(rows[1..], key, k);
      assert [rows[0]] + rows[1..] == rows;
    }
  }

  /** Appending a row with the next key keeps the keys growing. */
  lemma IncreasingAppend<T>(rows: seq<T>, x: T, id: T -> int, bound: int)
    requires Increasing(rows, id) && Below(rows, id, bound) && id(x) == bound
    ensures Increasing(rows + [x], id) && Below(rows + [x], id, bound + 1)
  {
    forall i, j | 0 <= i < j < |rows + [x]|
      ensures id((rows + [x])[i]) < id((rows + [x])[j])
    {
      assert (rows + [x])[i] == rows[i];
      if j < |rows| {
        assert (rows + [x])[j] == rows[j];
      } else {
        assert rows[i] in rows;
      }
    }
  }

  /** Appending a run of rows with consecutive keys from `bound` keeps the
      keys growing. */
  lemma IncreasingAppendRun<T>(rows: seq<T>, more: seq<T>, id: T -> int, bound: int)
    requires Increasing(rows, id) && Below(rows, id, bound)
    requires forall k :: 0 <= k < |more| ==> id(more[k]) == bound + k
    ensures Increasing(rows + more, id) && Below(rows + more, id, bound + |more|)
  {
    var all := rows + more;
    forall i, j | 0 <= i < j < |all| ensures id(all[i]) < id(all[j]) {
      if j < |rows| {
        assert all[i] == rows[i] && all[j] == rows[j];
      } else if i < |rows| {
        assert all[i] == rows[i] && rows[i] in rows && all[j] == more[j - |rows|];
      } else {
        assert all[i] == more[i - |rows|] && all[j] == more[j - |rows|];
      }
    }
    forall x | x in all ensures id(x) < bound + |more| {
      if x in more {
        var k :| 0 <= k < |more| && more[k] == x;
      }
    }
  }

  /** A lookup by the deleted key column for any other key is unaffected by
      the delete. */
  lemma {:induction false} FindByWithout<T(!new), K>(rows: seq<T>, key: T -> K, k: K, other: K)
    requires other != k
    ensures FindBy(Without(rows, key, k), key, other) == FindBy(rows, key, other)
  {
    if rows != [] {
      var rest := Without(rows[1..], key, k);
      FindByWithout(rows[1..], key, k, other);
      if key(rows[0]) != k {
        var w := [rows[0]] + rest;
        assert Without(rows, key, k) == w;
        assert w[0] == rows[0] && w[1..] == rest;
      } else {
        assert Without(rows, key, k) == [] + rest == rest;
      }
    }
  }

  /** A row whose key is below every key of a growing table can go in front. */
  lemma PrependIncreasing<T>(x: T, rows: seq<T>, id: T -> int)
    requires Increasing(rows, id)
    requires forall y :: y in rows ==> id(x) < id(y)
    ensures Increasing([x] + rows, id)
  {
    var all := [x] + rows;
    forall i, j | 0 <= i < j < |all| ensures id(all[i]) < id(all[j]) {
      if i == 0 {
        assert all[j] == rows[j - 1] && rows[j - 1] in rows;
      } else {
        assert all[i] == rows[i - 1] && all[j] == rows[j - 1];
      }
    }
  }

  /** Deleting rows keeps the remaining keys growing. */
  lemma {:induction false} WithoutIncreasing<T(!new), K>(rows: seq<T>, key: T -> K, k: K, id: T -> int)
    requires Increasing(rows, id)
    ensures Increasing(Without(rows, key, k), id)
  {
    if rows != [] {
      var tail := rows[1..];
      assert Increasing(tail, id) by {
        forall i, j | 0 <= i < j < |tail| ensures id(tail[i]) < id(tail[j]) {
          assert tail[i] == rows[i + 1] && tail[j] == rows[j + 1];
        }
      }
      WithoutIncreasing(tail, key, k, id);
      var rest := Without(tail, key, k);
      forall y | y in rest ensures id(rows[0]) < id(y) {
        var j :| 0 <= j < |tail| && tail[j] == y;
        assert y == rows[j + 1];
      }
      if key(rows[0]) != k {
        PrependIncreasing(rows[0], rest, id);
        assert Without(rows, key, k) == [rows[0]] + rest;
      } else {
        assert Without(rows, key, k) == [] + rest == rest;
      }
    }
  }

  /** Deleting rows keeps a UNIQUE column unique. */
  lemma {:induction false} WithoutDistinct<T(!new), K, L>(rows: seq<T>, key: T -> K, k: K, unique: T -> L)
    requires Distinct(rows, unique)
    ensures Distinct(Without(rows, key, k), unique)
  {
    if rows != [] {
      var tail := rows[1..];
      assert Distinct(tail, unique) by {
        forall i, j | 0 <= i < j < |tail| ensures unique(tail[i]) != unique(tail[j]) {
          assert tail[i] == rows[i + 1] && tail[j] == rows[j + 1];
        }
      }
      WithoutDistinct(tail, key, k, unique);
      var rest := Without(tail, key, k);
      forall y | y in rest ensures unique(rows[0]) != unique(y) {
        var j :| 0 <= j < |tail| && tail[j] == y;
        assert y == rows[j + 1];
      }
      var head := if key(rows[0]) != k then [rows[0]] else [];
      forall i, j | 0 <= i < j < |head + rest|
        ensures unique((head + rest)[i]) != unique((head + rest)[j])
      {
        if head == [] {
          assert (head + rest)[i] == rest[i] && (head + rest)[j] == rest[j];
        } else if i == 0 {
          assert (head + rest)[j] == rest[j - 1] && rest[j - 1] in rest;
        } else {
          assert (head + rest)[i] == rest[i - 1] && (head + rest)[j] == rest[j - 1];
        }
      }
    }
  }
}
