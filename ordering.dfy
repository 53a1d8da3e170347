/**
 * What `update_todo_order` does to the `order_index` column, and what the
 * pending list looks like afterwards.
 */
module Ordering {
  import opened Records
  import opened Listing

  /** The position of the last occurrence of `k` in `ids`. */
  function LastIndexOf(ids: seq<int>, k: int): (i: nat)
    requires k in ids
    ensures i < |ids| && ids[i] == k
    ensures forall j :: i < j < |ids| ==> ids[j] != k
  {
    var last := |ids| - 1;
    if ids[last] == k then last
    else
      assert ids == ids[..last] + [ids[last]];
      LastIndexOf(ids[..last], k)
  }

  /** In a sequence without repetition, the last occurrence is the only one. */
  lemma LastIndexOfNoDup(ids: seq<int>, i: int)
    requires NoDup(ids) && 0 <= i < |ids|
    ensures LastIndexOf(ids, ids[i]) == i
  {
  }

  /**
   * The table after `update_todo_order(ids)`: the row whose id is `ids[k]`
   * gets `order_index` k, an id listed twice keeps its later position, and an
   * id that matches no row changes nothing. Only `order_index` changes.
   */
  function Renumbered(rows: Rows, ids: seq<int>): (r: Rows)
    ensures r.Keys == rows.Keys
    ensures forall k :: k in r ==> r[k].(orderIndex := rows[k].orderIndex) == rows[k]
    ensures forall k :: k in r && k !in ids ==> r[k] == rows[k]
    ensures forall k :: k in r && k in ids ==> r[k].orderIndex == LastIndexOf(ids, k)
  {
    map k | k in rows :: if k in ids then rows[k].(orderIndex := LastIndexOf(ids, k)) else rows[k]
  }

  /** Renumbering keeps the table invariant. */
  lemma RenumberedWellFormed(rows: Rows, nextId: nat, ids: seq<int>)
    requires WellFormed(rows, nextId)
    ensures WellFormed(Renumbered(rows, ids), nextId)
  {
    var r := Renumbered(rows, ids);
    forall k | k in r
      ensures r[k].id == k && 1 <= k < nextId
      ensures r[k].completedAt.Some? <==> r[k].status == Completed
    {
      assert r[k].(orderIndex := rows[k].orderIndex) == rows[k];
    }
  }

  /**
   * One iteration of the `update_todo_order` loop: renumbering by one more id
   * is the previous renumbering with that single `UPDATE` applied.
   */
  lemma RenumberedStep(rows: Rows, ids: seq<int>, k: nat)
    requires k < |ids|
    ensures var before := Renumbered(rows, ids[..k]);
      Renumbered(rows, ids[..k + 1]) ==
        if ids[k] in before then before[ids[k] := before[ids[k]].(orderIndex := k)] else before
  {
    var before := Renumbered(rows, ids[..k]);
    var after := Renumbered(rows, ids[..k + 1]);
    var expected := if ids[k] in before then before[ids[k] := before[ids[k]].(orderIndex := k)] else before;
    assert ids[..k + 1][..k] == ids[..k];
    assert ids[..k + 1] == ids[..k] + [ids[k]];
    forall x | x in after ensures x in expected && after[x] == expected[x] {
      if x != ids[k] {
        assert x in ids[..k + 1] <==> x in ids[..k];
      }
    }
    assert after == expected;
  }

  /** Among the pending rows no two share an `order_index`. */
  ghost predicate PendingIndicesDistinct(rows: Rows) {
    forall a, b :: HasStatus(rows, a, Pending) && HasStatus(rows, b, Pending) && a != b ==>
      rows[a].orderIndex != rows[b].orderIndex
  }

  /**
   * A strictly increasing sequence of values in [0, m) that takes every value
   * in [0, m) is exactly 0, 1, ..., m - 1.
   */
  lemma {:induction false} IncreasingOntoAt(f: seq<int>, m: nat, i: nat)
    requires forall a, b :: 0 <= a < b < |f| ==> f[a] < f[b]
    requires forall a :: 0 <= a < |f| ==> 0 <= f[a] < m
    requires forall v :: 0 <= v < m ==> v in f
    requires i < |f|
    ensures f[i] == i
  {
    if i > 0 {
      IncreasingOntoAt(f, m, i - 1);
    }
    // f[i] >= i: it is above f[i - 1] == i - 1, or is a non-negative f[0].
    assert i <= f[i] < m;
    assert i in f;
    var p :| 0 <= p < |f| && f[p] == i;
    if p < i {
      IncreasingOntoAt(f, m, p);
      assert false;
    }
    assert f[i] <= f[p];
  }

  lemma IncreasingOnto(f: seq<int>, m: nat)
    requires forall a, b :: 0 <= a < b < |f| ==> f[a] < f[b]
    requires forall a :: 0 <= a < |f| ==> 0 <= f[a] < m
    requires forall v :: 0 <= v < m ==> v in f
    ensures |f| == m
    ensures forall i :: 0 <= i < |f| ==> f[i] == i
  {
    if |f| < m {
      assert |f| in f;
      var p :| 0 <= p < |f| && f[p] == |f|;
      IncreasingOntoAt(f, m, p);
      assert false;
    }
    if |f| > m {
      IncreasingOntoAt(f, m, m);
      assert false;
    }
    forall i | 0 <= i < |f| ensures f[i] == i {
      IncreasingOntoAt(f, m, i);
    }
  }

  /**
   * Renumbering by a repetition-free list of exactly the pending ids keeps the
   * pending rows and numbers them by their position in the list.
   */
  lemma RenumberedPending(rows: Rows, nextId: nat, ids: seq<int>)
    requires WellFormed(rows, nextId)
    requires NoDup(ids)
    requires forall id :: id in ids <==> HasStatus(rows, id, Pending)
    ensures WellFormed(Renumbered(rows, ids), nextId)
    ensures forall id :: id in ids <==> HasStatus(Renumbered(rows, ids), id, Pending)
    ensures forall i :: 0 <= i < |ids| ==>
      ids[i] in Renumbered(rows, ids) && Renumbered(rows, ids)[ids[i]].orderIndex == i
    ensures PendingIndicesDistinct(Renumbered(rows, ids))
  {
    var after := Renumbered(rows, ids);
    RenumberedWellFormed(rows, nextId, ids);
    forall id ensures id in ids <==> HasStatus(after, id, Pending) {
      if id in rows {
        assert after[id].(orderIndex := rows[id].orderIndex) == rows[id];
      }
    }
    forall i | 0 <= i < |ids| ensures ids[i] in after && after[ids[i]].orderIndex == i {
      assert HasStatus(rows, ids[i], Pending);
      LastIndexOfNoDup(ids, i);
    }
    forall a, b | HasStatus(after, a, Pending) && HasStatus(after, b, Pending) && a != b
      ensures after[a].orderIndex != after[b].orderIndex
    {
      assert after[a].orderIndex == LastIndexOf(ids, a);
      assert after[b].orderIndex == LastIndexOf(ids, b);
    }
  }

  /**
   * If the pending rows are exactly the ids of a repetition-free list and
   * each is numbered by its position in it, the pending query returns them in
   * that list's order.
   */
  lemma {:induction false} ListingFollowsPositions(rows: Rows, nextId: nat, ids: seq<int>)
    requires WellFormed(rows, nextId)
    requires NoDup(ids)
    requires forall id :: id in ids <==> HasStatus(rows, id, Pending)
    requires forall i :: 0 <= i < |ids| ==> ids[i] in rows && rows[ids[i]].orderIndex == i
    ensures IdsOf(PendingTodos(rows, nextId)) == ids
    ensures forall i :: 0 <= i < |ids| ==> PendingTodos(rows, nextId)[i].orderIndex == i
  {
    var listing := PendingTodos(rows, nextId);
    forall v | 0 <= v < |ids| ensures rows[ids[v]] in listing {
      assert HasStatus(rows, ids[v], Pending);
    }
    SortedByPositions(rows, listing, ids);
  }

  /** The preconditions shared by SortedByPositions and its helpers. */
  ghost predicate NumberedByPositions(rows: Rows, listing: seq<TodoItem>, ids: seq<int>) {
    && Keyed(rows)
    && (forall t :: t in listing ==> t.id in rows && rows[t.id] == t && t.id in ids)
    && (forall v :: 0 <= v < |ids| ==> ids[v] in rows && rows[ids[v]] in listing)
    && (forall i :: 0 <= i < |ids| ==> ids[i] in rows && rows[ids[i]].orderIndex == i)
  }

  /** Every listed row carries the position of its id as its index. */
  lemma IndexIsPosition(rows: Rows, listing: seq<TodoItem>, ids: seq<int>, i: nat)
    requires NumberedByPositions(rows, listing, ids) && i < |listing|
    ensures 0 <= listing[i].orderIndex < |ids| && ids[listing[i].orderIndex] == listing[i].id
  {
    assert listing[i] in listing;
    var p :| 0 <= p < |ids| && ids[p] == listing[i].id;
  }

  /** Every position is the index of some listed row. */
  lemma PositionIsIndex(rows: Rows, listing: seq<TodoItem>, ids: seq<int>, v: nat)
    requires NumberedByPositions(rows, listing, ids) && v < |ids|
    ensures exists p :: 0 <= p < |listing| && listing[p].orderIndex == v
  {
    assert rows[ids[v]] in listing;
    var p :| 0 <= p < |listing| && listing[p] == rows[ids[v]];
    assert listing[p].orderIndex == v;
  }

  /** The core of ListingFollowsPositions, stated over any list of the pending rows. */
  lemma {:induction false} SortedByPositions(rows: Rows, listing: seq<TodoItem>, ids: seq<int>)
    requires NumberedByPositions(rows, listing, ids)
    requires DistinctIds(listing)
    requires forall i, j :: 0 <= i < j < |listing| ==> listing[i].orderIndex <= listing[j].orderIndex
    ensures IdsOf(listing) == ids
    ensures forall i :: 0 <= i < |ids| ==> listing[i].orderIndex == i
  {
    var f := seq(|listing|, i requires 0 <= i < |listing| => listing[i].orderIndex);
    forall i | 0 <= i < |listing|
      ensures 0 <= f[i] < |ids| && ids[f[i]] == listing[i].id
    {
      IndexIsPosition(rows, listing, ids, i);
    }
    forall a, b | 0 <= a < b < |listing| ensures f[a] < f[b] {
      assert listing[a].id != listing[b].id;
    }
    forall v | 0 <= v < |ids| ensures v in f {
      PositionIsIndex(rows, listing, ids, v);
      var p :| 0 <= p < |listing| && listing[p].orderIndex == v;
      assert f[p] == v;
    }
    IncreasingOnto(f, |ids|);
    assert IdsOf(listing) == ids;
  }

  /**
   * When `ids` lists every pending id exactly once and nothing else that is
   * pending (what the drag handler passes), `update_todo_order(ids)` makes the
   * pending indices exactly 0..n-1 and `get_pending_todos` then returns the
   * pending rows in the order of `ids`.
   */
  lemma RenumberedListing(rows: Rows, nextId: nat, ids: seq<int>)
    requires WellFormed(rows, nextId)
    requires NoDup(ids)
    requires forall id :: id in ids <==> HasStatus(rows, id, Pending)
    ensures WellFormed(Renumbered(rows, ids), nextId)
    ensures PendingIndicesDistinct(Renumbered(rows, ids))
    ensures IdsOf(PendingTodos(Renumbered(rows, ids), nextId)) == ids
    ensures forall i :: 0 <= i < |ids| ==> PendingTodos(Renumbered(rows, ids), nextId)[i].orderIndex == i
  {
    RenumberedPending(rows, nextId, ids);
    ListingFollowsPositions(Renumbered(rows, ids), nextId, ids);
  }

  /**
   * `update_todo_order` is idempotent: when the pending indices already read
   * 0..n-1 in list order, passing the current pending ids changes nothing.
   */
  lemma RenumberCurrentOrderUnchanged(rows: Rows, nextId: nat)
    requires WellFormed(rows, nextId)
    requires forall i :: 0 <= i < |PendingTodos(rows, nextId)| ==> PendingTodos(rows, nextId)[i].orderIndex == i
    ensures Renumbered(rows, IdsOf(PendingTodos(rows, nextId))) == rows
  {
    var listing := PendingTodos(rows, nextId);
    var ids := IdsOf(listing);
    var after := Renumbered(rows, ids);
    forall k | k in after ensures after[k] == rows[k] {
      if k in ids {
        var i :| 0 <= i < |ids| && ids[i] == k;
        assert listing[i] in listing;
        LastIndexOfNoDup(ids, i);
      }
    }
    assert after == rows;
  }
}
