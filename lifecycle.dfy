/**
 * The row-level effect of `add_todo`, `complete_todo`, `delete_todo` and
 * `clear_completed`, and what each does to the pending and completed lists.
 * None of them renumbers: a removed pending row leaves a gap in the
 * `order_index` values.
 */
module Lifecycle {
  import opened Records
  import opened Listing
  import opened Ordering

  /**
   * The row `add_todo` inserts: the next AUTOINCREMENT id, pending, no
   * completion time, and an `order_index` after every pending row.
   */
  function NewRow(rows: Rows, nextId: nat, text: string, category: string, tags: string, now: nat): (t: TodoItem)
    requires WellFormed(rows, nextId)
    ensures t.id == nextId && t.status == Pending && t.completedAt == None
    ensures forall k :: HasStatus(rows, k, Pending) ==> rows[k].orderIndex < t.orderIndex
  {
    TodoItem(nextId, text, category, tags, now, None, Pending, NextOrderIndex(rows, nextId))
  }

  /**
   * `UPDATE todos SET status = "completed", completed_at = now WHERE id = ?`:
   * whatever the row's status was, and a no-op for an unknown id.
   */
  function CompleteRow(rows: Rows, id: int, now: nat): (r: Rows)
    ensures r.Keys == rows.Keys
    ensures forall k :: k in r && k != id ==> r[k] == rows[k]
    ensures id in rows ==>
      r[id].status == Completed && r[id].completedAt == Some(now) &&
      r[id].(status := rows[id].status, completedAt := rows[id].completedAt) == rows[id]
  {
    if id in rows then rows[id := rows[id].(status := Completed, completedAt := Some(now))] else rows
  }

  /** The table once every completed row has been deleted. */
  function WithoutCompleted(rows: Rows): (r: Rows)
    ensures forall k :: k in r <==> HasStatus(rows, k, Pending)
    ensures forall k :: k in r ==> k in rows && r[k] == rows[k]
  {
    map k | k in rows && rows[k].status == Pending :: rows[k]
  }

  /** Adding a row keeps the table invariant and the new id was not in use. */
  lemma AddedWellFormed(rows: Rows, nextId: nat, t: TodoItem)
    requires WellFormed(rows, nextId)
    requires t.id == nextId && t.status == Pending && t.completedAt == None
    ensures nextId !in rows
    ensures WellFormed(rows[nextId := t], nextId + 1)
  {
  }

  /** After `add_todo` the pending list holds exactly the new row and the old pending rows. */
  lemma AddedPendingMembers(rows: Rows, nextId: nat, t: TodoItem)
    requires WellFormed(rows, nextId)
    requires t.id == nextId && t.status == Pending && t.completedAt == None
    ensures WellFormed(rows[nextId := t], nextId + 1)
    ensures forall u :: u in PendingTodos(rows[nextId := t], nextId + 1) <==> u == t || u in PendingTodos(rows, nextId)
  {
    var after := rows[nextId := t];
    AddedWellFormed(rows, nextId, t);
    var listing := PendingTodos(after, nextId + 1);
    var before := PendingTodos(rows, nextId);
    forall u ensures u in listing <==> u == t || u in before {
      if u in listing && u != t { assert HasStatus(rows, u.id, Pending); }
      if u in before { assert HasStatus(after, u.id, Pending); }
      if u == t { assert HasStatus(after, nextId, Pending); }
    }
  }

  /**
   * A pending row whose `order_index` is above every other pending row's
   * comes last in the pending list.
   */
  lemma {:induction false} HighestIndexIsLast(rows: Rows, nextId: nat, k: int)
    requires WellFormed(rows, nextId)
    requires HasStatus(rows, k, Pending)
    requires forall j :: HasStatus(rows, j, Pending) && j != k ==> rows[j].orderIndex < rows[k].orderIndex
    ensures |PendingTodos(rows, nextId)| > 0
    ensures PendingTodos(rows, nextId)[|PendingTodos(rows, nextId)| - 1] == rows[k]
  {
    var listing := PendingTodos(rows, nextId);
    assert rows[k] in listing;
    var p :| 0 <= p < |listing| && listing[p] == rows[k];
    forall j | 0 <= j < |listing| && j != p ensures listing[j].orderIndex < rows[k].orderIndex {
      assert listing[j] in listing;
      assert HasStatus(rows, listing[j].id, Pending);
    }
  }

  /**
   * After `add_todo` the pending list holds the new row and the old pending
   * rows, and the new row comes last.
   */
  lemma AddAppendsLast(rows: Rows, nextId: nat, text: string, category: string, tags: string, now: nat)
    requires WellFormed(rows, nextId)
    ensures var t := NewRow(rows, nextId, text, category, tags, now);
      var after := rows[nextId := t];
      && nextId !in rows
      && WellFormed(after, nextId + 1)
      && (forall u :: u in PendingTodos(after, nextId + 1) <==> u == t || u in PendingTodos(rows, nextId))
      && |PendingTodos(after, nextId + 1)| > 0
      && PendingTodos(after, nextId + 1)[|PendingTodos(after, nextId + 1)| - 1] == t
  {
    var t := NewRow(rows, nextId, text, category, tags, now);
    var after := rows[nextId := t];
    AddedPendingMembers(rows, nextId, t);
    forall j | HasStatus(after, j, Pending) && j != nextId
      ensures after[j].orderIndex < after[nextId].orderIndex
    {
      assert HasStatus(rows, j, Pending);
    }
    HighestIndexIsLast(after, nextId + 1, nextId);
  }

  /** Adding a row keeps the pending indices distinct. */
  lemma AddKeepsIndicesDistinct(rows: Rows, nextId: nat, text: string, category: string, tags: string, now: nat)
    requires WellFormed(rows, nextId)
    requires PendingIndicesDistinct(rows)
    ensures PendingIndicesDistinct(rows[nextId := NewRow(rows, nextId, text, category, tags, now)])
  {
  }

  /** Completing keeps the table invariant: status and completion time change together. */
  lemma CompletedWellFormed(rows: Rows, nextId: nat, id: int, now: nat)
    requires WellFormed(rows, nextId)
    ensures WellFormed(CompleteRow(rows, id, now), nextId)
  {
  }

  /**
   * Completing a row takes it out of the pending list and puts it in the
   * completed list with its stale `order_index`; nothing else leaves or
   * enters either list.
   */
  lemma CompleteMovesRow(rows: Rows, nextId: nat, id: int, now: nat)
    requires WellFormed(rows, nextId)
    ensures var after := CompleteRow(rows, id, now);
      && WellFormed(after, nextId)
      && (forall u :: u in PendingTodos(after, nextId) <==> u in PendingTodos(rows, nextId) && u.id != id)
      && (forall u :: u in CompletedTodos(after, nextId) && u.id != id <==> u in CompletedTodos(rows, nextId) && u.id != id)
      && (id in rows ==> after[id] in CompletedTodos(after, nextId) && after[id].orderIndex == rows[id].orderIndex)
  {
    var after := CompleteRow(rows, id, now);
    CompletedWellFormed(rows, nextId, id, now);
    var pending, pendingAfter := PendingTodos(rows, nextId), PendingTodos(after, nextId);
    forall u ensures u in pendingAfter <==> u in pending && u.id != id {
      if u in pendingAfter { assert HasStatus(rows, u.id, Pending); }
      if u in pending && u.id != id { assert HasStatus(after, u.id, Pending); }
    }
    var done, doneAfter := CompletedTodos(rows, nextId), CompletedTodos(after, nextId);
    forall u ensures u in doneAfter && u.id != id <==> u in done && u.id != id {
      if u in doneAfter && u.id != id { assert HasStatus(rows, u.id, Completed); }
      if u in done && u.id != id { assert HasStatus(after, u.id, Completed); }
    }
    if id in rows {
      assert HasStatus(after, id, Completed);
    }
  }

  /** Completing a row keeps the pending indices distinct. */
  lemma CompleteKeepsIndicesDistinct(rows: Rows, id: int, now: nat)
    requires PendingIndicesDistinct(rows)
    ensures PendingIndicesDistinct(CompleteRow(rows, id, now))
  {
  }

  /** Deleting a row keeps the table invariant. */
  lemma DeletedWellFormed(rows: Rows, nextId: nat, id: int)
    requires WellFormed(rows, nextId)
    ensures WellFormed(rows - {id}, nextId)
  {
  }

  /** A row is in the scan after the delete exactly when it was before and is not the deleted one. */
  lemma DeleteFromListAt(rows: Rows, nextId: nat, id: int, st: Status, u: TodoItem)
    requires WellFormed(rows, nextId)
    ensures Keyed(rows - {id})
    ensures u in Scan(rows - {id}, nextId, st) <==> u in Scan(rows, nextId, st) && u.id != id
  {
    var after := rows - {id};
    assert Keyed(after);
    var listing, listingAfter := Scan(rows, nextId, st), Scan(after, nextId, st);
    if u in listingAfter {
      var i :| 0 <= i < |listingAfter| && listingAfter[i] == u;
      assert HasStatus(rows, u.id, st);
    }
    if u in listing && u.id != id {
      var i :| 0 <= i < |listing| && listing[i] == u;
      assert HasStatus(after, u.id, st);
    }
  }

  /** Deleting a row takes exactly that row out of the list of its status. */
  lemma DeleteFromList(rows: Rows, nextId: nat, id: int, st: Status)
    requires WellFormed(rows, nextId)
    ensures WellFormed(rows - {id}, nextId)
    ensures forall u :: u in Scan(rows - {id}, nextId, st) <==> u in Scan(rows, nextId, st) && u.id != id
  {
    DeletedWellFormed(rows, nextId, id);
    forall u ensures u in Scan(rows - {id}, nextId, st) <==> u in Scan(rows, nextId, st) && u.id != id {
      DeleteFromListAt(rows, nextId, id, st, u);
    }
  }

  /**
   * Deleting a row (whatever its status) removes exactly that row from the
   * lists; every other row, pending `order_index` included, is unchanged.
   */
  lemma DeleteRemovesRow(rows: Rows, nextId: nat, id: int)
    requires WellFormed(rows, nextId)
    ensures var after := rows - {id};
      && WellFormed(after, nextId)
      && (forall u :: u in PendingTodos(after, nextId) <==> u in PendingTodos(rows, nextId) && u.id != id)
      && (forall u :: u in CompletedTodos(after, nextId) <==> u in CompletedTodos(rows, nextId) && u.id != id)
  {
    DeleteFromList(rows, nextId, id, Pending);
    DeleteFromList(rows, nextId, id, Completed);
  }

  /** Deleting a row keeps the pending indices distinct. */
  lemma DeleteKeepsIndicesDistinct(rows: Rows, id: int)
    requires PendingIndicesDistinct(rows)
    ensures PendingIndicesDistinct(rows - {id})
  {
  }

  /**
   * Two tables that agree on their rows of status `st` below `n` scan to the
   * same list.
   */
  lemma {:induction false} ScanAgrees(a: Rows, b: Rows, n: nat, st: Status)
    requires Keyed(a) && Keyed(b)
    requires forall k :: 0 <= k < n ==>
      ((k in a && a[k].status == st) <==> (k in b && b[k].status == st))
    requires forall k :: 0 <= k < n && k in a && a[k].status == st ==> a[k] == b[k]
    ensures Scan(a, n, st) == Scan(b, n, st)
  {
    if n > 0 {
      ScanAgrees(a, b, n - 1, st);
    }
  }

  /** The completed list is empty exactly when no row is completed. */
  lemma NoCompletedRows(rows: Rows, nextId: nat)
    requires WellFormed(rows, nextId)
    ensures CompletedTodos(rows, nextId) == [] <==> forall k :: !HasStatus(rows, k, Completed)
  {
    var done := CompletedTodos(rows, nextId);
    if done != [] {
      assert done[0] in done;
    }
  }

  /** Removing the completed rows keeps the table invariant and leaves no completed row. */
  lemma ClearedWellFormed(rows: Rows, nextId: nat)
    requires WellFormed(rows, nextId)
    ensures WellFormed(WithoutCompleted(rows), nextId)
    ensures CompletedTodos(WithoutCompleted(rows), nextId) == []
  {
    var after := WithoutCompleted(rows);
    assert WellFormed(after, nextId);
    forall k ensures !HasStatus(after, k, Completed) {
    }
    NoCompletedRows(after, nextId);
  }

  /** Removing the completed rows leaves the pending list exactly as it was. */
  lemma ClearedPendingSame(rows: Rows, nextId: nat)
    requires WellFormed(rows, nextId)
    ensures WellFormed(WithoutCompleted(rows), nextId)
    ensures PendingTodos(WithoutCompleted(rows), nextId) == PendingTodos(rows, nextId)
  {
    ClearedWellFormed(rows, nextId);
    ScanAgrees(WithoutCompleted(rows), rows, nextId, Pending);
  }

  /** With no completed row, removing the completed rows changes nothing. */
  lemma ClearedNothingToDo(rows: Rows, nextId: nat)
    requires WellFormed(rows, nextId)
    requires CompletedTodos(rows, nextId) == []
    ensures WithoutCompleted(rows) == rows
  {
    var after := WithoutCompleted(rows);
    NoCompletedRows(rows, nextId);
    forall k | k in rows ensures k in after {
      assert !HasStatus(rows, k, Completed);
    }
  }

  /**
   * Removing the completed rows leaves the pending list exactly as it was and
   * the completed list empty; with no completed row it changes nothing.
   */
  lemma ClearKeepsPending(rows: Rows, nextId: nat)
    requires WellFormed(rows, nextId)
    ensures WellFormed(WithoutCompleted(rows), nextId)
    ensures PendingTodos(WithoutCompleted(rows), nextId) == PendingTodos(rows, nextId)
    ensures CompletedTodos(WithoutCompleted(rows), nextId) == []
    ensures CompletedTodos(rows, nextId) == [] ==> WithoutCompleted(rows) == rows
  {
    ClearedWellFormed(rows, nextId);
    ClearedPendingSame(rows, nextId);
    if CompletedTodos(rows, nextId) == [] {
      ClearedNothingToDo(rows, nextId);
    }
  }

  /** Removing the completed rows keeps the pending indices distinct. */
  lemma ClearKeepsIndicesDistinct(rows: Rows)
    requires PendingIndicesDistinct(rows)
    ensures PendingIndicesDistinct(WithoutCompleted(rows))
  {
  }

  /** The table after `delete_todo` has run for every id of `ids`. */
  function RemoveAll(rows: Rows, ids: seq<int>): (r: Rows)
    ensures forall k :: k in r <==> k in rows && k !in ids
    ensures forall k :: k in r ==> r[k] == rows[k]
  {
    map k | k in rows && k !in ids :: rows[k]
  }

  /** One more `delete_todo` removes one more id. */
  lemma RemoveAllStep(rows: Rows, ids: seq<int>, i: nat)
    requires i < |ids|
    ensures RemoveAll(rows, ids[..i + 1]) == RemoveAll(rows, ids[..i]) - {ids[i]}
  {
    assert ids[..i + 1] == ids[..i] + [ids[i]];
  }

  /** An id is in the completed list's ids exactly when its row is completed. */
  lemma CompletedIdAt(rows: Rows, nextId: nat, k: int)
    requires WellFormed(rows, nextId)
    ensures k in IdsOf(CompletedTodos(rows, nextId)) <==> HasStatus(rows, k, Completed)
  {
    var done := CompletedTodos(rows, nextId);
    var ids := IdsOf(done);
    if k in ids {
      var i :| 0 <= i < |ids| && ids[i] == k;
      assert done[i] in done;
    }
    if HasStatus(rows, k, Completed) {
      assert rows[k] in done;
      var i :| 0 <= i < |done| && done[i] == rows[k];
      assert ids[i] == k;
    }
  }

  /**
   * Deleting the ids of the completed list, one by one, is removing every
   * completed row.
   */
  lemma RemoveCompletedIds(rows: Rows, nextId: nat)
    requires WellFormed(rows, nextId)
    ensures RemoveAll(rows, IdsOf(CompletedTodos(rows, nextId))) == WithoutCompleted(rows)
  {
    var ids := IdsOf(CompletedTodos(rows, nextId));
    var a, b := RemoveAll(rows, ids), WithoutCompleted(rows);
    forall k ensures k in a <==> k in b {
      CompletedIdAt(rows, nextId, k);
    }
    assert a == b;
  }
}
