/**
 * `TodoQueueApp`: the parts of the window's handlers that decide what
 * happens to the store — the empty-text guard and category bookkeeping of
 * `add_todo`, the reordering done by `on_drop`, and `clear_completed`.
 * Widgets, dialogs and the status bar are not modelled; what the user typed
 * or answered arrives as parameters.
 */
module App {
  import opened Records
  import opened Listing
  import opened Ordering
  import opened Lifecycle
  import opened ListMove
  import opened Database

  /** The characters for which Python's `str.isspace` holds. */
  const Whitespace: set<char> := {
    '\t', '\n', '\U{000B}', '\U{000C}', '\r',
    '\U{001C}', '\U{001D}', '\U{001E}', '\U{001F}', ' ',
    '\U{0085}', '\U{00A0}', '\U{1680}',
    '\U{2000}', '\U{2001}', '\U{2002}', '\U{2003}', '\U{2004}', '\U{2005}',
    '\U{2006}', '\U{2007}', '\U{2008}', '\U{2009}', '\U{200A}',
    '\U{2028}', '\U{2029}', '\U{202F}', '\U{205F}', '\U{3000}'
  }

  predicate IsSpace(c: char) {
    c in Whitespace
  }

  /** The number of whitespace characters at the start of `s`. */
  function LeadingSpaces(s: string): (n: nat)
    ensures n <= |s|
    ensures forall i :: 0 <= i < n ==> IsSpace(s[i])
    ensures n < |s| ==> !IsSpace(s[n])
  {
    if s == [] || !IsSpace(s[0]) then 0 else 1 + LeadingSpaces(s[1..])
  }

  /** The number of whitespace characters at the end of `s`. */
  function TrailingSpaces(s: string): (n: nat)
    ensures n <= |s|
    ensures forall i :: |s| - n <= i < |s| ==> IsSpace(s[i])
    ensures n < |s| ==> !IsSpace(s[|s| - 1 - n])
  {
    if s == [] || !IsSpace(s[|s| - 1]) then 0 else 1 + TrailingSpaces(s[..|s| - 1])
  }

  /**
   * `s.strip()`: `s` without its leading and trailing whitespace, that is the
   * slice of `s` that starts after the leading whitespace (StripTrims says
   * where it ends).
   */
  function Strip(s: string): (r: string)
    ensures LeadingSpaces(s) + |r| <= |s| && r == s[LeadingSpaces(s)..LeadingSpaces(s) + |r|]
  {
    var a := LeadingSpaces(s);
    if a == |s| then [] else s[a..|s| - TrailingSpaces(s)]
  }

  /**
   * The stripped string is empty exactly when `s` is all whitespace;
   * otherwise it starts and ends with a non-space, and only whitespace
   * follows it in `s`.
   */
  lemma StripTrims(s: string)
    ensures Strip(s) == [] <==> forall i :: 0 <= i < |s| ==> IsSpace(s[i])
    ensures Strip(s) != [] ==> !IsSpace(Strip(s)[0]) && !IsSpace(Strip(s)[|Strip(s)| - 1])
    ensures forall i :: LeadingSpaces(s) + |Strip(s)| <= i < |s| ==> IsSpace(s[i])
  {
    var a := LeadingSpaces(s);
    if a < |s| {
      var b := |s| - TrailingSpaces(s);
      assert !IsSpace(s[a]);
      assert Strip(s) == s[a..b];
    }
  }

  /** Stripping twice is stripping once. */
  lemma StripIdempotent(s: string)
    ensures Strip(Strip(s)) == Strip(s)
  {
    var r := Strip(s);
    StripTrims(s);
    if r != [] {
      assert LeadingSpaces(r) == 0;
      assert TrailingSpaces(r) == 0;
    }
  }

  /**
   * The slot the dragged row is dropped on:
   * `max(0, min(len(todos) - 1, start_index + position_change))`.
   */
  function DropTarget(count: nat, start: nat, change: int): (t: nat)
    ensures count > 0 ==> t < count
    ensures count == 0 ==> t == 0
    ensures 0 <= start + change < count ==> t == start + change
    ensures start + change < 0 ==> t == 0
    ensures count > 0 && start + change >= count ==> t == count - 1
  {
    var upper := if count - 1 < start + change then count - 1 else start + change;
    if upper < 0 then 0 else upper
  }

  /** What `add_todo` did: refused an empty text, or added the row with this id. */
  datatype AddOutcome = EmptyText | Added(id: int)

  /**
   * What `on_drop` did: nothing (no movement, or dropped on its own slot),
   * a reordering, or `pop` raised IndexError because the dragged index is no
   * longer in the pending list.
   */
  datatype DropOutcome = Unmoved | Moved(from: nat, to: nat) | PopOutOfRange

  class TodoQueueApp {
    const db: TodoDatabase
    /** The choices of the category combo box (`category_combo['values']`). */
    var categoryChoices: seq<string>

    ghost predicate Valid()
      reads this, db
    {
      db.Valid()
    }

    /** Opening the window on a store, then `refresh_todos` (which reloads the category choices). */
    constructor(store: TodoDatabase)
      requires store.Valid()
      ensures db == store && Valid()
      ensures categoryChoices == Categories(store.rows, store.nextId)
    {
      db := store;
      categoryChoices := Categories(store.rows, store.nextId);
    }

    /**
     * `add_todo`: the three inputs are stripped; an empty text is refused with
     * nothing changed. Otherwise the row is added, and a non-empty category
     * missing from the combo box is offered to `add_category` (with the
     * default color) and the choices are reloaded.
     */
    method AddTodo(entry: string, categoryEntry: string, tagsEntry: string, now: nat) returns (outcome: AddOutcome)
      requires Valid()
      modifies this, db
      ensures Valid()
      ensures outcome == EmptyText <==> Strip(entry) == []
      ensures outcome == EmptyText ==>
        db.rows == old(db.rows) && db.nextId == old(db.nextId) &&
        db.categories == old(db.categories) && categoryChoices == old(categoryChoices)
      ensures outcome.Added? ==>
        outcome.id == old(db.nextId) && db.nextId == old(db.nextId) + 1 &&
        db.rows == old(db.rows)[outcome.id := NewRow(old(db.rows), old(db.nextId),
          Strip(entry), Strip(categoryEntry), Strip(tagsEntry), now)]
      ensures var category := Strip(categoryEntry);
        outcome.Added? && category != [] && category !in old(categoryChoices) ==>
          db.categories == (if category in old(db.categories) then old(db.categories)
                            else old(db.categories)[category := DefaultColor]) &&
          categoryChoices == Categories(db.rows, db.nextId) &&
          category in categoryChoices
      ensures var category := Strip(categoryEntry);
        outcome.Added? && (category == [] || category in old(categoryChoices)) ==>
          db.categories == old(db.categories) && categoryChoices == old(categoryChoices)
    {
      var text := Strip(entry);
      var category := Strip(categoryEntry);
      var tags := Strip(tagsEntry);
      if text == [] {
        return EmptyText;
      }
      var id := db.AddTodo(text, category, tags, now);
      if category != [] && category !in categoryChoices {
        db.AddCategory(category, DefaultColor);
        assert db.rows[id].category == category;
        categoryChoices := db.GetCategories();
      }
      outcome := Added(id);
    }

    /**
     * `on_drop` once a drag is under way, with the pixel offset already turned
     * into a number of slots. A real move renumbers the pending rows so that
     * the pending list becomes the old one with the dragged row moved to the
     * clamped target.
     */
    method OnDrop(startIndex: nat, positionChange: int) returns (outcome: DropOutcome)
      requires Valid()
      modifies db
      ensures Valid()
      ensures db.nextId == old(db.nextId) && db.categories == old(db.categories) && db.issued == old(db.issued)
      ensures var before := PendingTodos(old(db.rows), old(db.nextId));
        var target := DropTarget(|before|, startIndex, positionChange);
        && (outcome == Unmoved <==> positionChange == 0 || startIndex == target)
        && (outcome == PopOutOfRange <==>
              positionChange != 0 && startIndex != target && startIndex >= |before|)
        && (outcome.Moved? ==> outcome == Moved(startIndex, target) && startIndex < |before|)
      ensures !outcome.Moved? ==> db.rows == old(db.rows)
      ensures outcome.Moved? ==>
        var before := PendingTodos(old(db.rows), old(db.nextId));
        var order := MoveItem(IdsOf(before), outcome.from, outcome.to);
        && db.rows == Renumbered(old(db.rows), order)
        && IdsOf(PendingTodos(db.rows, db.nextId)) == order
        && (forall i :: 0 <= i < |order| ==> PendingTodos(db.rows, db.nextId)[i].orderIndex == i)
        && PendingIndicesDistinct(db.rows)
    {
      if positionChange == 0 {
        return Unmoved;
      }
      var todos := db.GetPendingTodos();
      var target := DropTarget(|todos|, startIndex, positionChange);
      if startIndex == target {
        return Unmoved;
      }
      if startIndex >= |todos| {
        return PopOutOfRange;
      }
      var ids := IdsOf(todos);
      var order := MoveItem(ids, startIndex, target);
      MoveNoDup(ids, startIndex, target);
      MoveMembers(ids, startIndex, target);
      forall id ensures id in order <==> HasStatus(db.rows, id, Pending) {
        if id in ids {
          var i :| 0 <= i < |ids| && ids[i] == id;
          assert todos[i] in todos;
        }
        if HasStatus(db.rows, id, Pending) {
          assert db.rows[id] in todos;
          var i :| 0 <= i < |todos| && todos[i] == db.rows[id];
          assert ids[i] == id;
        }
      }
      RenumberedListing(db.rows, db.nextId, order);
      db.UpdateTodoOrder(order);
      outcome := Moved(startIndex, target);
    }

    /**
     * `clear_completed`: when the user confirms, every row of the completed
     * list is deleted one by one and the view is refreshed; the pending list
     * is untouched.
     */
    method ClearCompleted(confirmed: bool)
      requires Valid()
      modifies this, db
      ensures Valid()
      ensures db.nextId == old(db.nextId) && db.categories == old(db.categories) && db.issued == old(db.issued)
      ensures !confirmed ==> db.rows == old(db.rows) && categoryChoices == old(categoryChoices)
      ensures confirmed ==>
        && db.rows == WithoutCompleted(old(db.rows))
        && PendingTodos(db.rows, db.nextId) == PendingTodos(old(db.rows), old(db.nextId))
        && CompletedTodos(db.rows, db.nextId) == []
        && categoryChoices == Categories(db.rows, db.nextId)
      ensures old(PendingIndicesDistinct(db.rows)) ==> PendingIndicesDistinct(db.rows)
    {
      if !confirmed {
        return;
      }
      var completed := db.GetCompletedTodos();
      var ids := IdsOf(completed);
      assert ids[..0] == [];
      for i := 0 to |completed|
        invariant db.Valid()
        invariant db.rows == RemoveAll(old(db.rows), ids[..i])
        invariant db.nextId == old(db.nextId) && db.categories == old(db.categories) && db.issued == old(db.issued)
      {
        RemoveAllStep(old(db.rows), ids, i);
        db.DeleteTodo(completed[i].id);
      }
      assert ids[..|ids|] == ids;
      RemoveCompletedIds(old(db.rows), old(db.nextId));
      ClearKeepsPending(old(db.rows), old(db.nextId));
      if old(PendingIndicesDistinct(db.rows)) {
        ClearKeepsIndicesDistinct(old(db.rows));
      }
      categoryChoices := db.GetCategories();
    }
  }
}
