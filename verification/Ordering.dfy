/** The database's ORDER BY over an integer key, as an insertion sort. Every column ordered by
    in the model is a primary key or carries a unique constraint, so keys are distinct. */
module Ordering {
  function InsertBy<T>(key: T -> int, x: T, rows: seq<T>): seq<T> {
    if rows == [] then [x]
    else if key(x) <= key(rows[0]) then [x] + rows
    else [rows[0]] + InsertBy(key, x, rows[1..])
  }

  function OrderBy<T>(key: T -> int, rows: seq<T>): seq<T> {
    if rows == [] then [] else InsertBy(key, rows[0], OrderBy(key, rows[1..]))
  }

  ghost predicate Ascending<T>(key: T -> int, rows: seq<T>) {
    forall i, j :: 0 <= i < j < |rows| ==> key(rows[i]) < key(rows[j])
  }

  ghost predicate DistinctKeys<T>(key: T -> int, rows: seq<T>) {
    forall i, j :: 0 <= i < j < |rows| ==> key(rows[i]) != key(rows[j])
  }

  ghost function Members<T>(rows: seq<T>): set<T> { set x | x in rows }

  lemma HeadTail<T>(rows: seq<T>)
    requires rows != []
    ensures Members(rows) == {rows[0]} + Members(rows[1..])
  {
    assert rows == [rows[0]] + rows[1..];
  }

  lemma {:induction false} InsertByMembers<T>(key: T -> int, x: T, rows: seq<T>)
    ensures Members(InsertBy(key, x, rows)) == Members(rows) + {x}
    ensures |InsertBy(key, x, rows)| == |rows| + 1
  {
    if rows != [] {
      HeadTail(rows);
      HeadTail(InsertBy(key, x, rows));
      if key(x) > key(rows[0]) {
        InsertByMembers(key, x, rows[1..]);
        assert InsertBy(key, x, rows)[1..] == InsertBy(key, x, rows[1..]);
      } else {
        assert InsertBy(key, x, rows)[1..] == rows;
      }
    }
  }

  lemma {:induction false} InsertByAscends<T>(key: T -> int, x: T, rows: seq<T>)
    requires Ascending(key, rows) && forall y :: y in rows ==> key(y) != key(x)
    ensures Ascending(key, InsertBy(key, x, rows))
  {
    if rows != [] && key(x) > key(rows[0]) {
      var tail := rows[1..];
      InsertByAscends(key, x, tail);
      var rest := InsertBy(key, x, tail);
      InsertByMembers(key, x, tail);
      forall j | 0 <= j < |rest|
        ensures key(rows[0]) < key(rest[j])
      {
        assert rest[j] in Members(rest);
      }
    }
  }

  /** ORDER BY returns the same rows, in ascending order. */
  lemma {:induction false} OrderByCorrect<T>(key: T -> int, rows: seq<T>)
    requires DistinctKeys(key, rows)
    ensures Ascending(key, OrderBy(key, rows))
    ensures Members(OrderBy(key, rows)) == Members(rows)
    ensures |OrderBy(key, rows)| == |rows|
  {
    if rows != [] {
      var tail := rows[1..];
      OrderByCorrect(key, tail);
      HeadTail(rows);
      forall y | y in OrderBy(key, tail)
        ensures key(y) != key(rows[0])
      {
        assert y in Members(OrderBy(key, tail));
        var i :| 0 <= i < |tail| && tail[i] == y;
        assert key(rows[0]) != key(rows[i + 1]);
      }
      InsertByMembers(key, rows[0], OrderBy(key, tail));
      InsertByAscends(key, rows[0], OrderBy(key, tail));
    }
  }

  /** Rows already in order are returned as they stand. */
  lemma {:induction false} OrderByFixed<T>(key: T -> int, rows: seq<T>)
    requires Ascending(key, rows)
    ensures OrderBy(key, rows) == rows
  {
    if rows != [] {
      OrderByFixed(key, rows[1..]);
      assert rows == [rows[0]] + rows[1..];
    }
  }

  lemma TailMembers<T>(key: T -> int, a: seq<T>)
    requires a != [] && Ascending(key, a)
    ensures Members(a[1..]) == Members(a) - {a[0]}
  {
    HeadTail(a);
    forall i | 0 <= i < |a| - 1
      ensures a[1..][i] != a[0]
    {
      assert key(a[0]) < key(a[i + 1]);
    }
  }

  /** There is only one ascending sequence with given members. */
  lemma {:induction false} AscendingUnique<T>(key: T -> int, a: seq<T>, b: seq<T>)
    requires Ascending(key, a) && Ascending(key, b) && Members(a) == Members(b)
    ensures a == b
  {
    assert a != [] ==> a[0] in Members(a);
    assert b != [] ==> b[0] in Members(b);
    if a != [] {
      assert a[0] == b[0];
      TailMembers(key, a);
      TailMembers(key, b);
      AscendingUnique(key, a[1..], b[1..]);
      assert a == [a[0]] + a[1..] && b == [b[0]] + b[1..];
    }
  }

  /** ORDER BY depends on the set of rows and not on the order they arrived in. */
  lemma OrderByCanonical<T>(key: T -> int, a: seq<T>, b: seq<T>)
    requires DistinctKeys(key, a) && DistinctKeys(key, b) && Members(a) == Members(b)
    ensures OrderBy(key, a) == OrderBy(key, b)
  {
    OrderByCorrect(key, a);
    OrderByCorrect(key, b);
    AscendingUnique(key, OrderBy(key, a), OrderBy(key, b));
  }
}
