/**
 * `TodoDatabase`: the store behind the app. The `todos` table is the map
 * `rows` with the AUTOINCREMENT counter `nextId`; the `categories` table is a
 * map from the unique `name` to its `color`. Every method opens, changes and
 * commits in one go, so each is one atomic state change here.
 */
module Database {
  import opened Records
  import opened Listing
  import opened Ordering
  import opened Lifecycle

  /** The default of the `color` column and of `add_category`'s parameter. */
  const DefaultColor: string := "#3498db"

  class TodoDatabase {
    var rows: Rows
    var nextId: nat
    var categories: map<string, string>
    /** Every id AUTOINCREMENT has handed out so far, deleted rows' included. */
    ghost var issued: set<int>

    ghost predicate Valid()
      reads this
    {
      WellFormed(rows, nextId) && rows.Keys <= issued && forall k :: k in issued ==> k < nextId
    }

    /** `init_database` on a fresh file: both tables empty, ids start at 1. */
    constructor()
      ensures Valid()
      ensures rows == map[] && nextId == 1 && categories == map[] && issued == {}
    {
      rows := map[];
      nextId := 1;
      categories := map[];
      issued := {};
    }

    /**
     * `add_todo`: inserts a pending row after every pending row (NewRow) and
     * returns its id, which is above every id handed out before, deleted
     * rows' included. AddAppendsLast shows the row is then last in the
     * pending list.
     */
    method AddTodo(text: string, category: string, tags: string, now: nat) returns (id: int)
      requires Valid()
      modifies this
      ensures Valid()
      ensures id == old(nextId) && nextId == old(nextId) + 1
      ensures forall k :: k in old(issued) ==> k < id
      ensures issued == old(issued) + {id}
      ensures rows == old(rows)[id := NewRow(old(rows), old(nextId), text, category, tags, now)]
      ensures categories == old(categories)
    {
      var t := NewRow(rows, nextId, text, category, tags, now);
      AddedWellFormed(rows, nextId, t);
      id := nextId;
      rows, nextId, issued := rows[id := t], nextId + 1, issued + {id};
    }

    /** `get_pending_todos`. */
    method GetPendingTodos() returns (todos: seq<TodoItem>)
      requires Valid()
      ensures todos == PendingTodos(rows, nextId)
    {
      todos := PendingTodos(rows, nextId);
    }

    /** `get_completed_todos`. */
    method GetCompletedTodos() returns (todos: seq<TodoItem>)
      requires Valid()
      ensures todos == CompletedTodos(rows, nextId)
    {
      todos := CompletedTodos(rows, nextId);
    }

    /**
     * `complete_todo`: the table becomes CompleteRow of the old one, whatever
     * the row's status was; an unknown id changes nothing. CompleteMovesRow
     * shows the row moves from the pending list to the completed list.
     */
    method CompleteTodo(id: int, now: nat)
      requires Valid()
      modifies this
      ensures Valid()
      ensures rows == CompleteRow(old(rows), id, now)
      ensures nextId == old(nextId) && categories == old(categories) && issued == old(issued)
    {
      CompletedWellFormed(rows, nextId, id, now);
      rows := CompleteRow(rows, id, now);
    }

    /**
     * `delete_todo`: removes the row, whatever its status; an unknown id
     * changes nothing. DeleteRemovesRow shows each list loses exactly that row.
     */
    method DeleteTodo(id: int)
      requires Valid()
      modifies this
      ensures Valid()
      ensures rows == old(rows) - {id}
      ensures nextId == old(nextId) && categories == old(categories) && issued == old(issued)
    {
      rows := rows - {id};
    }

    /**
     * `update_todo_order`: for each position k of `ids`, one
     * `UPDATE todos SET order_index = k WHERE id = ids[k]`.
     */
    method UpdateTodoOrder(ids: seq<int>)
      requires Valid()
      modifies this
      ensures Valid()
      ensures rows == Renumbered(old(rows), ids)
      ensures nextId == old(nextId) && categories == old(categories) && issued == old(issued)
    {
      RenumberedWellFormed(rows, nextId, ids);
      assert ids[..0] == [];
      for k := 0 to |ids|
        invariant rows == Renumbered(old(rows), ids[..k])
        invariant nextId == old(nextId) && categories == old(categories) && issued == old(issued)
      {
        RenumberedStep(old(rows), ids, k);
        if ids[k] in rows {
          rows := rows[ids[k] := rows[ids[k]].(orderIndex := k)];
        }
      }
      assert ids[..|ids|] == ids;
    }

    /** `get_categories`. */
    method GetCategories() returns (names: seq<string>)
      requires Valid()
      ensures names == Categories(rows, nextId)
    {
      names := Categories(rows, nextId);
    }

    /**
     * `add_category`: inserts the name with its color; a name that is already
     * there violates `UNIQUE`, and the swallowed IntegrityError leaves the
     * table as it was.
     */
    method AddCategory(name: string, color: string)
      requires Valid()
      modifies this
      ensures Valid()
      ensures rows == old(rows) && nextId == old(nextId) && issued == old(issued)
      ensures name in categories && categories.Keys == old(categories.Keys) + {name}
      ensures name in old(categories) ==> categories == old(categories)
      ensures name !in old(categories) ==> categories == old(categories)[name := color]
    {
      if name !in categories {
        categories := categories[name := color];
      }
    }
  }
}
