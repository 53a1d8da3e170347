/** The rows of the `todos` table and the invariant every stored row keeps. */
module Records {

  datatype Option<T> = None | Some(value: T)

  /** The `status` column: 'pending' or 'completed'. */
  datatype Status = Pending | Completed

  /**
   * One row of the `todos` table (the `TodoItem` record). Timestamps
   * (`created_at`, `completed_at`) are opaque ordered values supplied by the
   * caller; `completedAt` is None while the column is NULL.
   */
  datatype TodoItem = TodoItem(
    id: int,
    text: string,
    category: string,
    tags: string,
    createdAt: nat,
    completedAt: Option<nat>,
    status: Status,
    orderIndex: int)

  /** The `todos` table, keyed by the row id. */
  type Rows = map<int, TodoItem>

  /** Every row is stored under its own id. */
  ghost predicate Keyed(rows: Rows) {
    forall k :: k in rows ==> rows[k].id == k
  }

  /**
   * The table invariant: rows are keyed by id, every id was issued by the
   * AUTOINCREMENT counter (which starts at 1 and next hands out `nextId`),
   * and `completed_at` is set exactly when the status is completed.
   */
  ghost predicate WellFormed(rows: Rows, nextId: nat) {
    1 <= nextId && Keyed(rows) &&
    forall k :: k in rows ==>
      1 <= k < nextId && (rows[k].completedAt.Some? <==> rows[k].status == Completed)
  }

  /** Row `k` exists and has status `st`. */
  ghost predicate HasStatus(rows: Rows, k: int, st: Status) {
    k in rows && rows[k].status == st
  }

  /** A sequence of ids with no repetition. */
  ghost predicate NoDup(ids: seq<int>) {
    forall i, j :: 0 <= i < j < |ids| ==> ids[i] != ids[j]
  }

  /** A sequence of records with pairwise different ids. */
  ghost predicate DistinctIds(s: seq<TodoItem>) {
    forall i, j :: 0 <= i < j < |s| ==> s[i].id != s[j].id
  }

  /** The ids of a list of records, `[todo.id for todo in todos]`. */
  function IdsOf(s: seq<TodoItem>): (r: seq<int>)
    ensures |r| == |s|
    ensures forall i :: 0 <= i < |s| ==> r[i] == s[i].id
    ensures DistinctIds(s) ==> NoDup(r)
  {
    seq(|s|, i requires 0 <= i < |s| => s[i].id)
  }
}
