# TodoQueue task store, modelled in Dafny

TodoQueue is a desktop to-do list. Tasks live in an SQLite table `todos`,
one row per task: text, category, tags, creation time, completion time,
status and `order_index`. Pending tasks are shown as a queue ordered by
`order_index`. New tasks join at the end. Dragging a task moves it within the
queue. Completing a task moves it to a history list, newest first.

The store class `TodoDatabase` exists twice, almost identically, in
`src/todoqueue/main.py` and `todo_queue_app.py`. This project models it once,
together with the three pieces of store logic that sit in the window class:
- the empty-text guard and category bookkeeping of `add_todo`;
- the list move and renumbering of `on_drop`;
- the delete loop of `clear_completed`.

How the store is modelled:
- The `todos` table is a map from id to `TodoItem`, plus the AUTOINCREMENT
  counter `nextId`.
- The `categories` table is a map from its unique `name` to its `color`.

The modules:
- `Records` (records.dfy): the row type and the table invariant `WellFormed`.
  Rows are keyed by id, every id is below the counter, and `completed_at` is
  set exactly for completed rows.
- `Listing` (listing.dfy): the read queries as functions.
  - A query is a scan in id order (the `WHERE`) followed by a sort on a key
    (the `ORDER BY`).
  - SQLite fixes no order among equal keys, so the contracts promise a sorted
    permutation of exactly the matching rows.
- `Ordering` (ordering.dfy): what `update_todo_order` does to the table. The
  main theorem is `RenumberedListing`: renumbering by a repetition-free list of
  exactly the pending ids makes the pending query return the rows in that
  order, numbered 0..n-1.
- `Lifecycle` (lifecycle.dfy): the row-level effect of add, complete, delete
  and clear, and what each does to the two lists.
- `ListMove` (listmove.dfy): Python's `list.pop(i)` and `list.insert(i, x)`
  and the move they make together.
- `Database` (database.dfy): class `TodoDatabase`, whose methods change
  `rows`, `nextId` and `categories`. `update_todo_order` is a loop, proved
  against `Renumbered`.
- `App` (app.dfy): `str.strip`, the drop-target clamp, and class
  `TodoQueueApp` with `AddTodo`, `OnDrop` and `ClearCompleted`.
  - `ClearCompleted` is a loop proved against `WithoutCompleted`.
  - A drag whose start index is no longer in the pending list makes `pop`
    raise IndexError. That is the `PopOutOfRange` outcome, which changes
    nothing.

The model follows the code, which does less than an idealised store would:
- Completing or deleting a row never renumbers the others, so gaps remain.
- Unknown ids are silent no-ops.
- Completing an already completed row overwrites its time.
- The first index handed out by `add_todo` is 1, from `(max_order or 0) + 1`.
  After a drag the indices start at 0.
- `update_todo_order` does not check its argument. An id listed twice keeps
  its later position, and an id with no row is ignored.

## Model

| member | source | states |
|---|---|---|
| Records.IdsOf | src/todoqueue/main.py:782 | the id list of a listing: position i holds the id of row i, and it has no repetition when the listing's ids are distinct |
| Listing.Scan | src/todoqueue/main.py:118-123 | the rows with a given status: each is a stored row with that status, every such row is present, ids strictly increase |
| Listing.InsertBy | src/todoqueue/main.py:122 | inserting into a sorted list keeps it sorted, adds one element and exactly the elements of both |
| Listing.InsertByPermutes | src/todoqueue/main.py:122 | insertion adds exactly one occurrence of the new row (multiset) |
| Listing.InsertByDistinct | src/todoqueue/main.py:122 | inserting a row with a new id keeps ids distinct |
| Listing.SortBy | src/todoqueue/main.py:122 | the ORDER BY result is sorted on the key, of the same length and with the same members |
| Listing.SortByPermutes | src/todoqueue/main.py:122 | sorting is a permutation (equal multisets) |
| Listing.SortByDistinct | src/todoqueue/main.py:122 | sorting keeps ids distinct |
| Listing.PendingTodos | src/todoqueue/main.py:113-130 | exactly the pending rows, each once, ascending by order_index |
| Listing.NewestFirst | src/todoqueue/main.py:141 | sorting on the recency key orders completion times descending |
| Listing.CompletedHaveTimes | todo_queue_app.py:117-121 | every completed row of a well-formed table has a completion time |
| Listing.CompletedTodos | todo_queue_app.py:93-107 | exactly the completed rows, each once, completion times descending |
| Listing.CategoriesBelow | todo_queue_app.py:154-155 | each non-empty category used by a row below the bound appears exactly once, and nothing else |
| Listing.Categories | todo_queue_app.py:150-156 | each non-empty category used by any row, pending or completed, appears exactly once; "" never appears |
| Listing.MaxOrder | src/todoqueue/main.py:96-97 | MAX(order_index) is NULL exactly on no rows, bounds every index and is attained |
| Listing.NextOrderIndex | src/todoqueue/main.py:96-98 | the new index is above every pending index, is one past the largest pending index, and is 1 when nothing is pending (completed rows ignored) |
| Ordering.LastIndexOf | src/todoqueue/main.py:182-187 | the position whose UPDATE for an id runs last: it holds the id and no later position does |
| Ordering.LastIndexOfNoDup | src/todoqueue/main.py:182-187 | without repetition, the id at position i has i as its last position |
| Ordering.Renumbered | src/todoqueue/main.py:177-190 | only order_index changes; a listed id gets its (last) position, an unlisted row is untouched, no row appears or vanishes |
| Ordering.RenumberedWellFormed | src/todoqueue/main.py:182-187 | renumbering keeps the table invariant |
| Ordering.RenumberedStep | src/todoqueue/main.py:182-187 | one loop iteration is one UPDATE of one id's index, applied to the previous state |
| Ordering.IncreasingOntoAt | src/todoqueue/main.py:182-187 | a strictly increasing list onto [0, m) has value i at position i |
| Ordering.IncreasingOnto | src/todoqueue/main.py:182-187 | a strictly increasing list onto [0, m) is exactly 0..m-1 |
| Ordering.RenumberedPending | src/todoqueue/main.py:182-187 | renumbering by the pending ids keeps the same pending rows, numbers them by position and makes their indices distinct |
| Ordering.IndexIsPosition | src/todoqueue/main.py:182-187 | a listed row renumbered by position carries its id's position in the list |
| Ordering.PositionIsIndex | src/todoqueue/main.py:182-187 | every position of the list is the index of some listed row |
| Ordering.SortedByPositions | src/todoqueue/main.py:118-123 | a distinct-id listing sorted by position-numbered indices follows the position order |
| Ordering.ListingFollowsPositions | src/todoqueue/main.py:118-123 | with the pending rows numbered by their position in a list, the pending query returns that list's ids with indices 0..n-1 |
| Ordering.RenumberedListing | src/todoqueue/main.py:182-187 | renumbering by a repetition-free list of exactly the pending ids makes pending indices distinct, exactly 0..n-1, and the pending list follows that order |
| Ordering.RenumberCurrentOrderUnchanged | todo_queue_app.py:140-145 | update_todo_order with the current pending order, already 0..n-1, changes nothing |
| Lifecycle.NewRow | src/todoqueue/main.py:100-105 | the inserted row has the next AUTOINCREMENT id, is pending, has a NULL completion time and an index above every pending row |
| Lifecycle.CompleteRow | src/todoqueue/main.py:156-162 | only that row's status and completion time change; an unknown id changes nothing; any prior status is overwritten |
| Lifecycle.WithoutCompleted | src/todoqueue/main.py:582-584 | exactly the pending rows remain, unchanged |
| Lifecycle.AddedWellFormed | src/todoqueue/main.py:102-107 | the new id was unused and the table invariant holds after the insert |
| Lifecycle.AddedPendingMembers | src/todoqueue/main.py:102-107 | after add_todo the pending list holds exactly the new row and the old pending rows |
| Lifecycle.HighestIndexIsLast | src/todoqueue/main.py:118-123 | a pending row with the strictly largest index is the last in the pending list |
| Lifecycle.AddAppendsLast | src/todoqueue/main.py:90-111 | add_todo appends: the new row is last in the pending list and no other pending row is added or lost |
| Lifecycle.AddKeepsIndicesDistinct | todo_queue_app.py:58-60 | distinct pending indices stay distinct after add_todo |
| Lifecycle.CompletedWellFormed | todo_queue_app.py:117-121 | completing keeps status and completion time consistent |
| Lifecycle.CompleteMovesRow | todo_queue_app.py:117-121 | the row leaves the pending list and joins the completed list with its stale index; no other row changes list |
| Lifecycle.CompleteKeepsIndicesDistinct | todo_queue_app.py:109-121 | distinct pending indices stay distinct after complete_todo |
| Lifecycle.DeletedWellFormed | src/todoqueue/main.py:172 | deleting keeps the table invariant |
| Lifecycle.DeleteFromListAt | src/todoqueue/main.py:172 | a given row is in the rows of a status after the delete exactly when it was before and is not the deleted one |
| Lifecycle.DeleteFromList | src/todoqueue/main.py:172 | deleting takes exactly that row out of the rows of its status |
| Lifecycle.DeleteRemovesRow | src/todoqueue/main.py:172 | exactly that row leaves whichever list held it; every other row, pending index included, is unchanged |
| Lifecycle.DeleteKeepsIndicesDistinct | todo_queue_app.py:123-130 | distinct pending indices stay distinct after delete_todo |
| Lifecycle.ScanAgrees | src/todoqueue/main.py:118-123 | two tables with the same rows of a status scan to the same list |
| Lifecycle.NoCompletedRows | src/todoqueue/main.py:582-584 | the completed list is empty exactly when no row is completed |
| Lifecycle.ClearedWellFormed | src/todoqueue/main.py:582-584 | after clearing, the table invariant holds and the completed list is empty |
| Lifecycle.ClearedPendingSame | src/todoqueue/main.py:582-584 | clearing leaves the pending list exactly as it was |
| Lifecycle.ClearedNothingToDo | src/todoqueue/main.py:582-584 | with no completed row, clearing changes nothing |
| Lifecycle.ClearKeepsPending | src/todoqueue/main.py:579-588 | clearing leaves the pending list exactly as it was, empties the completed list, and is a no-op when nothing is completed |
| Lifecycle.ClearKeepsIndicesDistinct | src/todoqueue/main.py:582-584 | distinct pending indices stay distinct after clearing the completed rows |
| Lifecycle.RemoveAll | src/todoqueue/main.py:583-584 | deleting a list of ids keeps exactly the rows whose id is not listed, unchanged |
| Lifecycle.RemoveAllStep | src/todoqueue/main.py:583-584 | one more loop iteration deletes one more id |
| Lifecycle.CompletedIdAt | src/todoqueue/main.py:582-583 | an id is among the completed list's ids exactly when its row is completed |
| Lifecycle.RemoveCompletedIds | src/todoqueue/main.py:582-584 | deleting the ids of the completed list removes exactly the completed rows |
| ListMove.Pop | src/todoqueue/main.py:785 | list.pop(i): one shorter, elements before i kept, later ones shifted down |
| ListMove.Insert | src/todoqueue/main.py:788 | list.insert(i, x): one longer, x at i (or at the end when i is past it), the others around it in order |
| ListMove.MoveItem | src/todoqueue/main.py:785-788 | pop then insert keeps the length |
| ListMove.MoveItemAt | src/todoqueue/main.py:785-788 | an independent positional description: the dragged id lands at the target, those between shift by one, the rest stay |
| ListMove.MovePermutes | todo_queue_app.py:518-521 | the move is a permutation (equal multisets) |
| ListMove.MoveMembers | todo_queue_app.py:518-521 | the move keeps exactly the same ids |
| ListMove.MoveNoDup | src/todoqueue/main.py:785-788 | a list without repetition stays without repetition |
| ListMove.MoveKeepsOthers | src/todoqueue/main.py:785-788 | the dragged id is at the target and the other ids keep their relative order |
| ListMove.MoveRoundTrip | src/todoqueue/main.py:785-788 | dragging back from the target to the start restores the list |
| ListMove.MoveInPlace | src/todoqueue/main.py:780 | moving onto the same slot changes nothing |
| Database.TodoDatabase.constructor | src/todoqueue/main.py:48-73 | a fresh store has no rows, no categories and next id 1 |
| Database.TodoDatabase.AddTodo | src/todoqueue/main.py:90-111 | returns the counter's id, above every id ever issued (deleted ones included), and adds exactly the NewRow under it; nothing else changes |
| Database.TodoDatabase.GetPendingTodos | src/todoqueue/main.py:113-130 | returns Listing.PendingTodos, whose contract a caller inherits: exactly the pending rows, each once, ascending by order_index |
| Database.TodoDatabase.GetCompletedTodos | src/todoqueue/main.py:132-149 | returns Listing.CompletedTodos, whose contract a caller inherits: exactly the completed rows, each once, completion times descending |
| Database.TodoDatabase.CompleteTodo | src/todoqueue/main.py:151-165 | the table becomes CompleteRow of the old one and stays well-formed; counter and categories unchanged |
| Database.TodoDatabase.DeleteTodo | src/todoqueue/main.py:167-175 | removes exactly that id, whatever its status, and nothing else; counter and categories unchanged |
| Database.TodoDatabase.UpdateTodoOrder | src/todoqueue/main.py:177-190 | the loop of UPDATEs yields Renumbered(old table, ids) and keeps the invariant |
| Database.TodoDatabase.GetCategories | src/todoqueue/main.py:192-201 | returns Listing.Categories, whose contract a caller inherits: each non-empty category in use exactly once |
| Database.TodoDatabase.AddCategory | src/todoqueue/main.py:203-215 | inserts a new name with its color; an existing name leaves the table unchanged and raises nothing; the todos table and its invariant are untouched |
| App.LeadingSpaces | src/todoqueue/main.py:460-462 | counts the whitespace prefix: all whitespace, followed by a non-space or the end |
| App.TrailingSpaces | src/todoqueue/main.py:460-462 | counts the whitespace suffix: all whitespace, preceded by a non-space or the start |
| App.Strip | src/todoqueue/main.py:460-462 | the stripped text is the slice of the input after its leading whitespace |
| App.StripTrims | src/todoqueue/main.py:460-464 | the stripped text is empty exactly when the input is all whitespace; otherwise it starts and ends with a non-space and only whitespace follows it |
| App.StripIdempotent | src/todoqueue/main.py:460-462 | stripping twice is stripping once |
| App.DropTarget | src/todoqueue/main.py:778 | the target is start + change clamped to [0, len - 1], and 0 for an empty list |
| App.TodoQueueApp.constructor | src/todoqueue/main.py:235-239 | the window uses the store and loads the category choices from it |
| App.TodoQueueApp.AddTodo | src/todoqueue/main.py:459-488 | refuses exactly an all-whitespace text and then changes nothing; otherwise adds the NewRow of the stripped inputs; a new non-empty category goes to add_category with the default color and the choices reload |
| App.TodoQueueApp.OnDrop | src/todoqueue/main.py:766-798 | no move for zero change or start equal to the clamped target; IndexError with nothing changed when start is out of range; otherwise the pending list becomes the old one with the dragged id moved to the target, numbered 0..n-1 |
| App.TodoQueueApp.ClearCompleted | src/todoqueue/main.py:579-588 | when confirmed, the delete loop leaves exactly the pending rows, the pending list unchanged and the completed list empty; declined, nothing changes |

## Left out

- Database.TodoDatabase.constructor: only `init_database` on a fresh file is modelled. Reopening an existing file, with its rows and its AUTOINCREMENT counter, is not, because the file is I/O. Every method is instead proved from any state satisfying `Valid()`, which covers a reopened store.
- The tkinter interface is not modelled. That covers widgets, tabs, scrolling, message boxes, the status bar, stats labels, and help and about text. Confirmation answers arrive as the `confirmed` parameter.
- The app-level `complete_todo` and `delete_todo` handlers are not modelled. They only call the store (and ask for confirmation) before refreshing the view.
- SQLite itself is replaced by in-memory maps. This covers connections, commits, `CREATE TABLE`, the `app_info` version row and the database path under the home directory.
- `backup_data` (file copy and dialog) is not modelled.
- Clock readings and ISO formatting are not modelled. `created_at` and `completed_at` are natural numbers passed in by the caller, so their string order is taken to be time order.
- The pixel-to-slot conversion `round(y_offset / widget_height)` is floating point and is not modelled. `OnDrop` receives the slot change as an integer.
- The `drag_data` bookkeeping of `start_drag` is not modelled. `OnDrop` models a drop with a drag under way, given its start index.
- The order of equal keys in query results is not modelled, because SQLite does not fix it. Nor is the order of `SELECT DISTINCT`.
- Database.TodoDatabase.AddTodo: the 64-bit limit of SQLite row ids is not modelled, because ids are unbounded integers here.
- Database.TodoDatabase.AddTodo: the Python default arguments (`category = ''`, `tags = ''`) are not modelled. The window always passes all three values.
- App.TodoQueueApp.AddTodo: the trailing newline the text widget adds, and exceptions from the store, are not modelled. The newline is whitespace and is stripped anyway, and the in-memory store raises nothing.
- App.TodoQueueApp.OnDrop: `pop` raising IndexError is modelled as an outcome. What tkinter does with the uncaught exception is not.
