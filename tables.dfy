/** What the services ask of a repository, on a table kept as a sequence of rows in
    insertion order: `findOne` / `findBy` (the first or all rows matching a condition) and
    `delete` (dropping the rows matching a condition). */
module Tables {
  import opened Wrappers

  /** The rows satisfying `keep`, in table order. */
  function Filter<T(!new)>(rows: seq<T>, keep: T -> bool): (r: seq<T>)
    ensures |r| <= |rows|
    ensures forall x :: x in r <==> x in rows && keep(x)
  {
    if rows == [] then []
    else if keep(rows[0]) then [rows[0]] + Filter(rows[1..], keep)
    else Filter(rows[1..], keep)
  }

  /** The first row satisfying `p` (`findOne`), or None. */
  function FirstWhere<T(!new)>(rows: seq<T>, p: T -> bool): (r: Option<T>)
    ensures r.None? <==> forall x :: x in rows ==> !p(x)
    ensures r.Some? ==> r.value in rows && p(r.value)
  {
    if rows == [] then None
    else if p(rows[0]) then Some(rows[0])
    else FirstWhere(rows[1..], p)
  }

  /** Filtering distributes over concatenation: it keeps the table order. */
  lemma {:induction false} FilterAppend<T(!new)>(a: seq<T>, b: seq<T>, keep: T -> bool)
    ensures Filter(a + b, keep) == Filter(a, keep) + Filter(b, keep)
  {
    if a == [] {
      assert a + b == b;
    } else {
      assert (a + b)[0] == a[0];
      assert (a + b)[1..] == a[1..] + b;
      FilterAppend(a[1..], b, keep);
    }
  }

  /** A filter that every row passes keeps the table as it is. */
  lemma {:induction false} FilterKeepsAll<T(!new)>(rows: seq<T>, keep: T -> bool)
    requires forall x :: x in rows ==> keep(x)
    ensures Filter(rows, keep) == rows
  {
    if rows != [] {
      assert forall x :: x in rows[1..] ==> x in rows;
      FilterKeepsAll(rows[1..], keep);
    }
  }

  /** Keys strictly increase in table order, as auto-increment ids do. */
  ghost predicate Ascending<T>(rows: seq<T>, key: T -> int) {
    forall i, j :: 0 <= i < j < |rows| ==> key(rows[i]) < key(rows[j])
  }

  /** Appending a row whose key exceeds every key keeps the keys ascending. */
  lemma AppendAscending<T>(rows: seq<T>, key: T -> int, x: T)
    requires Ascending(rows, key)
    requires forall y :: y in rows ==> key(y) < key(x)
    ensures Ascending(rows + [x], key)
  {
    var r := rows + [x];
    forall i, j | 0 <= i < j < |r| ensures key(r[i]) < key(r[j]) {
      if j < |rows| {
        assert r[i] == rows[i] && r[j] == rows[j];
      } else {
        assert r[i] == rows[i] && rows[i] in rows;
      }
    }
  }

  /** Appending rows whose keys all exceed the table's keeps the keys ascending. */
  lemma ConcatAscending<T>(a: seq<T>, b: seq<T>, key: T -> int)
    requires Ascending(a, key) && Ascending(b, key)
    requires forall x, y :: x in a && y in b ==> key(x) < key(y)
    ensures Ascending(a + b, key)
  {
    var r := a + b;
    forall i, j | 0 <= i < j < |r| ensures key(r[i]) < key(r[j]) {
      if j < |a| {
        assert r[i] == a[i] && r[j] == a[j];
      } else if i >= |a| {
        assert r[i] == b[i - |a|] && r[j] == b[j - |a|];
      } else {
        assert r[i] == a[i] && a[i] in a && r[j] == b[j - |a|] && b[j - |a|] in b;
      }
    }
  }

  /** Below the first row of an ascending table the keys stay ascending and exceed the first key. */
  lemma AscendingTail<T>(rows: seq<T>, key: T -> int)
    requires Ascending(rows, key) && |rows| > 0
    ensures Ascending(rows[1..], key)
    ensures forall x :: x in rows[1..] ==> key(rows[0]) < key(x)
  {
    var tail := rows[1..];
    forall i, j | 0 <= i < j < |tail| ensures key(tail[i]) < key(tail[j]) {
      assert tail[i] == rows[i + 1] && tail[j] == rows[j + 1];
    }
    forall x | x in tail ensures key(rows[0]) < key(x) {
      var k :| 0 <= k < |tail| && tail[k] == x;
      assert tail[k] == rows[k + 1];
    }
  }

  /** Deleting rows keeps the remaining keys ascending. */
  lemma {:induction false} FilterAscending<T(!new)>(rows: seq<T>, keep: T -> bool, key: T -> int)
    requires Ascending(rows, key)
    ensures Ascending(Filter(rows, keep), key)
  {
    if rows != [] {
      var tail := rows[1..];
      assert Ascending(tail, key) by {
        forall i, j | 0 <= i < j < |tail| ensures key(tail[i]) < key(tail[j]) {
          assert tail[i] == rows[i + 1] && tail[j] == rows[j + 1];
        }
      }
      FilterAscending(tail, keep, key);
      if keep(rows[0]) {
        var r := Filter(rows, keep);
        var ft := Filter(tail, keep);
        assert r == [rows[0]] + ft;
        forall j | 0 <= j < |ft| ensures key(rows[0]) < key(ft[j]) {
          assert ft[j] in tail;
          var k :| 0 <= k < |tail| && tail[k] == ft[j];
          assert rows[k + 1] == ft[j];
        }
        forall i, j | 0 <= i < j < |r| ensures key(r[i]) < key(r[j]) {
          if i > 0 {
            assert r[i] == ft[i - 1] && r[j] == ft[j - 1];
          } else {
            assert r[j] == ft[j - 1];
          }
        }
      }
    }
  }

  /** In a table with ascending keys, a key names at most one row. */
  lemma AscendingUnique<T>(rows: seq<T>, key: T -> int, x: T, y: T)
    requires Ascending(rows, key)
    requires x in rows && y in rows && key(x) == key(y)
    ensures x == y
  {
    var i :| 0 <= i < |rows| && rows[i] == x;
    var j :| 0 <= j < |rows| && rows[j] == y;
    if i < j {
      assert key(rows[i]) < key(rows[j]);
    } else if j < i {
      assert key(rows[j]) < key(rows[i]);
    }
  }
}
