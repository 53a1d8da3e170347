/**
 * The read queries of the store: `get_pending_todos`, `get_completed_todos`,
 * `get_categories` and the `SELECT MAX(order_index)` used by `add_todo`.
 * A query is a scan of the table in id order (the `WHERE` clause) followed by
 * a sort on a key (the `ORDER BY` clause). SQLite does not fix the order of
 * equal keys, so the contracts promise a sorted permutation and nothing about
 * ties.
 */
module Listing {
  import opened Records

  /** The rows with an id in [0, n) and status `st`, in ascending id order. */
  function Scan(rows: Rows, n: nat, st: Status): (r: seq<TodoItem>)
    requires Keyed(rows)
    ensures forall i :: 0 <= i < |r| ==>
      0 <= r[i].id < n && HasStatus(rows, r[i].id, st) && rows[r[i].id] == r[i]
    ensures forall k {:trigger HasStatus(rows, k, st)} :: 0 <= k < n && HasStatus(rows, k, st) ==> rows[k] in r
    ensures forall i, j :: 0 <= i < j < |r| ==> r[i].id < r[j].id
  {
    if n == 0 then []
    else
      var prefix := Scan(rows, n - 1, st);
      if n - 1 in rows && rows[n - 1].status == st then prefix + [rows[n - 1]] else prefix
  }

  ghost predicate SortedBy(s: seq<TodoItem>, key: TodoItem -> int) {
    forall i, j :: 0 <= i < j < |s| ==> key(s[i]) <= key(s[j])
  }

  /** Inserts `x` into the sorted `s` before the first element whose key is not smaller. */
  function InsertBy(x: TodoItem, s: seq<TodoItem>, key: TodoItem -> int): (r: seq<TodoItem>)
    requires SortedBy(s, key)
    ensures SortedBy(r, key)
    ensures |r| == |s| + 1
    ensures forall y :: y in r <==> y == x || y in s
  {
    if s == [] || key(x) <= key(s[0]) then [x] + s
    else
      var rest := InsertBy(x, s[1..], key);
      HeadBelowRest(x, s, key, rest);
      assert s == [s[0]] + s[1..];
      [s[0]] + rest
  }

  /** InsertBy adds exactly one occurrence of `x`. */
  lemma {:induction false} InsertByPermutes(x: TodoItem, s: seq<TodoItem>, key: TodoItem -> int)
    requires SortedBy(s, key)
    ensures multiset(InsertBy(x, s, key)) == multiset(s) + multiset{x}
  {
    if s != [] && key(s[0]) < key(x) {
      InsertByPermutes(x, s[1..], key);
      assert s == [s[0]] + s[1..];
    }
  }

  /** In the recursive case of InsertBy, the head of `s` is not above anything inserted after it. */
  lemma HeadBelowRest(x: TodoItem, s: seq<TodoItem>, key: TodoItem -> int, rest: seq<TodoItem>)
    requires s != [] && SortedBy(s, key) && key(s[0]) < key(x)
    requires forall y :: y in rest <==> y == x || y in s[1..]
    ensures forall y :: y in rest ==> key(s[0]) <= key(y)
  {
    forall y | y in rest ensures key(s[0]) <= key(y) {
      if y != x {
        var j :| 0 <= j < |s[1..]| && s[1..][j] == y;
        assert s[j + 1] == y;
      }
    }
  }

  /** Prepending a record whose id is new keeps the ids distinct. */
  lemma ConsDistinct(h: TodoItem, t: seq<TodoItem>)
    requires DistinctIds(t) && forall y :: y in t ==> y.id != h.id
    ensures DistinctIds([h] + t)
  {
    var r := [h] + t;
    forall i, j | 0 <= i < j < |r| ensures r[i].id != r[j].id {
      assert r[j] == t[j - 1];
      if i > 0 { assert r[i] == t[i - 1]; }
    }
  }

  /** Inserting a record with a new id keeps the ids distinct. */
  lemma {:induction false} InsertByDistinct(x: TodoItem, s: seq<TodoItem>, key: TodoItem -> int)
    requires SortedBy(s, key) && DistinctIds(s) && forall y :: y in s ==> y.id != x.id
    ensures DistinctIds(InsertBy(x, s, key))
  {
    if s == [] || key(x) <= key(s[0]) {
      ConsDistinct(x, s);
    } else {
      var rest := InsertBy(x, s[1..], key);
      InsertByDistinct(x, s[1..], key);
      ConsDistinct(s[0], rest);
    }
  }

  /** The `ORDER BY key ASC` of a query result. */
  function SortBy(s: seq<TodoItem>, key: TodoItem -> int): (r: seq<TodoItem>)
    ensures SortedBy(r, key)
    ensures |r| == |s|
    ensures forall y :: y in r <==> y in s
  {
    if s == [] then []
    else
      assert s == [s[0]] + s[1..];
      InsertBy(s[0], SortBy(s[1..], key), key)
  }

  /** Sorting keeps the ids distinct. */
  lemma {:induction false} SortByDistinct(s: seq<TodoItem>, key: TodoItem -> int)
    requires DistinctIds(s)
    ensures DistinctIds(SortBy(s, key))
  {
    if s != [] {
      SortByDistinct(s[1..], key);
      InsertByDistinct(s[0], SortBy(s[1..], key), key);
    }
  }

  /** Sorting is a permutation: every record keeps its number of occurrences. */
  lemma {:induction false} SortByPermutes(s: seq<TodoItem>, key: TodoItem -> int)
    ensures multiset(SortBy(s, key)) == multiset(s)
  {
    if s != [] {
      var rest := SortBy(s[1..], key);
      SortByPermutes(s[1..], key);
      InsertByPermutes(s[0], rest, key);
      assert SortBy(s, key) == InsertBy(s[0], rest, key);
      assert s == [s[0]] + s[1..];
      assert multiset(s) == multiset{s[0]} + multiset(s[1..]);
    }
  }

  /** The sort key of the pending list: `ORDER BY order_index ASC`. */
  function OrderKey(t: TodoItem): int {
    t.orderIndex
  }

  /**
   * The sort key of the completed list: `ORDER BY completed_at DESC`, where a
   * NULL `completed_at` sorts last as SQLite does.
   */
  function RecencyKey(t: TodoItem): int {
    match t.completedAt
    case None => 1
    case Some(c) => 0 - c
  }

  /** `get_pending_todos`: the pending rows, ascending by `order_index`. */
  function PendingTodos(rows: Rows, nextId: nat): (r: seq<TodoItem>)
    requires WellFormed(rows, nextId)
    ensures forall t :: t in r ==> HasStatus(rows, t.id, Pending) && rows[t.id] == t
    ensures forall k {:trigger HasStatus(rows, k, Pending)} :: HasStatus(rows, k, Pending) ==> rows[k] in r
    ensures DistinctIds(r)
    ensures forall i, j :: 0 <= i < j < |r| ==> r[i].orderIndex <= r[j].orderIndex
  {
    var scan := Scan(rows, nextId, Pending);
    var r := SortBy(scan, OrderKey);
    SortByDistinct(scan, OrderKey);
    assert SortedBy(r, OrderKey);
    r
  }

  /** Sorting completed rows by RecencyKey puts later completion times first. */
  lemma NewestFirst(r: seq<TodoItem>)
    requires SortedBy(r, RecencyKey)
    requires forall t :: t in r ==> t.completedAt.Some?
    ensures forall i, j :: 0 <= i < j < |r| ==>
      r[i].completedAt.Some? && r[j].completedAt.Some? &&
      r[i].completedAt.value >= r[j].completedAt.value
  {
    forall i, j | 0 <= i < j < |r|
      ensures r[i].completedAt.Some? && r[j].completedAt.Some?
      ensures r[i].completedAt.value >= r[j].completedAt.value
    {
      assert r[i] in r && r[j] in r;
      assert RecencyKey(r[i]) <= RecencyKey(r[j]);
    }
  }

  /** Every completed row of a well-formed table carries its completion time. */
  lemma CompletedHaveTimes(rows: Rows, nextId: nat, r: seq<TodoItem>)
    requires WellFormed(rows, nextId)
    requires forall t :: t in r ==> HasStatus(rows, t.id, Completed) && rows[t.id] == t
    ensures forall t :: t in r ==> t.completedAt.Some?
  {
  }

  /** `get_completed_todos`: the completed rows, most recently completed first. */
  function CompletedTodos(rows: Rows, nextId: nat): (r: seq<TodoItem>)
    requires WellFormed(rows, nextId)
    ensures forall t :: t in r ==> HasStatus(rows, t.id, Completed) && rows[t.id] == t
    ensures forall k {:trigger HasStatus(rows, k, Completed)} :: HasStatus(rows, k, Completed) ==> rows[k] in r
    ensures DistinctIds(r)
    ensures forall i, j :: 0 <= i < j < |r| ==>
      r[i].completedAt.Some? && r[j].completedAt.Some? &&
      r[i].completedAt.value >= r[j].completedAt.value
  {
    var scan := Scan(rows, nextId, Completed);
    var r := SortBy(scan, RecencyKey);
    SortByDistinct(scan, RecencyKey);
    CompletedHaveTimes(rows, nextId, r);
    NewestFirst(r);
    r
  }

  /**
   * `SELECT DISTINCT category FROM todos WHERE category != ""` over the rows
   * with an id in [0, n): each non-empty category once. The
   * query fixes no order; this one lists them in order of first use.
   */
  function CategoriesBelow(rows: Rows, n: nat): (r: seq<string>)
    ensures forall i, j :: 0 <= i < j < |r| ==> r[i] != r[j]
    ensures forall c :: c in r <==>
      c != "" && exists k :: 0 <= k < n && k in rows && rows[k].category == c
  {
    if n == 0 then []
    else
      var prefix := CategoriesBelow(rows, n - 1);
      if n - 1 in rows && rows[n - 1].category != "" && rows[n - 1].category !in prefix
      then prefix + [rows[n - 1].category]
      else prefix
  }

  /**
   * `get_categories`: every non-empty category used by some row, pending or
   * completed, exactly once.
   */
  function Categories(rows: Rows, nextId: nat): (r: seq<string>)
    requires WellFormed(rows, nextId)
    ensures forall i, j :: 0 <= i < j < |r| ==> r[i] != r[j]
    ensures forall c :: c in r <==> c != "" && exists k :: k in rows && rows[k].category == c
  {
    CategoriesBelow(rows, nextId)
  }

  /** `MAX(order_index)` over a list of rows; None (SQL NULL) when it is empty. */
  function MaxOrder(s: seq<TodoItem>): (m: Option<int>)
    ensures m.None? <==> s == []
    ensures m.Some? ==> forall t :: t in s ==> t.orderIndex <= m.value
    ensures m.Some? ==> exists t :: t in s && t.orderIndex == m.value
  {
    if s == [] then None
    else
      var rest := MaxOrder(s[1..]);
      assert forall t :: t in s ==> t == s[0] || t in s[1..];
      if rest.None? || s[0].orderIndex > rest.value then Some(s[0].orderIndex) else rest
  }

  /** There is at least one pending row. */
  ghost predicate HasPending(rows: Rows) {
    exists k :: HasStatus(rows, k, Pending)
  }

  /**
   * The `order_index` that `add_todo` gives a new row:
   * `(max_order or 0) + 1`, with `max_order` the largest pending index. Stale
   * indices of completed rows are not consulted.
   */
  function NextOrderIndex(rows: Rows, nextId: nat): (r: int)
    requires WellFormed(rows, nextId)
    ensures forall k :: HasStatus(rows, k, Pending) ==> rows[k].orderIndex < r
    ensures HasPending(rows) ==> exists k :: HasStatus(rows, k, Pending) && rows[k].orderIndex == r - 1
    ensures !HasPending(rows) ==> r == 1
  {
    var pending := Scan(rows, nextId, Pending);
    var maxOrder := MaxOrder(pending);
    assert HasPending(rows) <==> pending != [] by {
      if HasPending(rows) {
        var k :| HasStatus(rows, k, Pending);
        assert rows[k] in pending;
      }
      if pending != [] {
        assert HasStatus(rows, pending[0].id, Pending);
      }
    }
    // Python's `max_order or 0`: NULL becomes 0 (and 0 stays 0).
    var base := match maxOrder case None => 0 case Some(m) => m;
    base + 1
  }
}
