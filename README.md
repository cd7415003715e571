# TaskBoard board model

This project models the `TaskBoard` component of a small detective-themed kanban
board in Dafny. The board has four fixed columns, each an ordered list of tasks
(`id`, `content`, `createdAt`), and is kept in React state. Users open a form
in a column and file a task into it, delete tasks, and drag tasks around. While
a task is dragged over another column it moves there live, to the end of that
column. Dropping it on another task of its own column reorders that column with
`arrayMove`.

The model follows the source's own structure:

- `Types` (`types.dfy`): the task, column-id and column records of
  `src/types.ts`. A column id is one of the four names the code uses (`todo`,
  `inProgress`, `willDo`, `done`).
- `Sortable` (`sortable.dfy`): the sortable library's `arrayMove`, defined
  here. It is proved a permutation, and moving back undoes it.
- `Text` (`text.dfy`): JavaScript's `trim`, with the ECMAScript whitespace
  set.
- `Board` (`board.dfy`): the default board, the lazy loader, the
  `find`/`findIndex`/`filter` lookups, and every `setColumns` updater as a pure
  function over `seq<Column>`. It also holds the lemmas about what the updaters
  do and what they preserve. The main invariant is `WellFormed`: exactly the
  four columns in their fixed order, and no task id used twice anywhere on the
  board.
- `Component` (`component.dfy`): `class TaskBoard`, whose four fields are the
  component's four state hooks. Its methods are the event handlers, and each
  one updates the fields in the order the code does. An empty `activeTask` is
  the idle phase of a drag and a present one the dragging phase.
- `Session` (`session.dfy`): one full session driven through the handlers. A
  task is filed into the first column of a fresh board, dragged over the last
  column, released outside any column, and deleted, leaving an empty,
  well-formed board.

The columns are `todo`, `inProgress`, `willDo` and `done`, in that order,
titled "Leads to Follow", "Under Investigation", "Pending Review" and "Case
Closed". A drag over another column always appends the task at the end of
that column.

The default board is proved well-formed. Every handler is proved to keep
`WellFormed` when it held before, with one condition: `HandleCreateTask`
keeps it only when the new id is not already on the board. The model takes
`newId` as a parameter, so the freshness of `uuidv4()` is assumed, not
proved. A board restored from storage is not checked by the code, so it is
not known to be well-formed.

## Model

| member | source | states |
|---|---|---|
| Types.ColumnName | src/types.ts:7 | each of the four strings `todo`, `inProgress`, `willDo`, `done` is the name of exactly one column id |
| Sortable.ArrayMove | src/components/TaskBoard.tsx:162 | the result has the input's length and its multiset of elements (a permutation), and the moved element sits at `to` |
| Sortable.ArrayMoveAt | src/components/TaskBoard.tsx:162 | every other element shifts by at most one position, toward the vacated slot; elements outside the range between `from` and `to` stay put |
| Sortable.ArrayMoveInverse | src/components/TaskBoard.tsx:162 | `arrayMove(arrayMove(s, i, j), j, i) == s` |
| Sortable.ArrayMoveInPlace | src/components/TaskBoard.tsx:158-162 | moving an element onto its own index changes nothing |
| Text.Trim | src/components/TaskBoard.tsx:180-184 | the result is the slice of the input between its leading and trailing whitespace, starts and ends with non-whitespace, and is empty exactly when the input is all whitespace |
| Text.TrimIdempotent | src/components/TaskBoard.tsx:180-184 | trimming an already trimmed text changes nothing |
| Board.IndexOf | src/components/TaskBoard.tsx:155-156 | `findIndex`: -1 exactly when no task has the id, otherwise the first position holding it |
| Board.HasId | src/components/TaskBoard.tsx:94 | `tasks.some(task => task.id === id)`: true exactly when some position holds a task with the id (the same test is at lines 98, 141 and 145) |
| Board.Find | src/components/TaskBoard.tsx:105 | `find`: a task is returned exactly when one has the id; it is the first task with that id, and the only one when ids are distinct |
| Board.Tasks | src/components/TaskBoard.tsx:76 | `flatMap(col => col.tasks)`: a task is in the flattened board exactly when some column holds it |
| Board.FindTask | src/components/TaskBoard.tsx:75-77 | a task is found exactly when the flattened board holds one with the id, and it is a task of the board with that id |
| Board.FindColumn | src/components/TaskBoard.tsx:93-99 | `columns.find(p)`: the first column satisfying `p`, or none when no column does |
| Board.ActiveColumn | src/components/TaskBoard.tsx:93-95 | the first column containing the active id, or none exactly when no column contains it (the same lookup recurs at lines 140-142) |
| Board.OverColumn | src/components/TaskBoard.tsx:97-99 | the first column whose id is `overId` or that contains a task with id `overId`, or none exactly when there is no such column (the same lookup, its two tests swapped, recurs at lines 144-146) |
| Board.HasIdTasks | src/components/TaskBoard.tsx:75-77 | some column holds the id exactly when the flattened board does |
| Board.FindTaskInColumn | src/components/TaskBoard.tsx:75-77 | the task `flatMap(...).find` returns is the one found in the first column that holds the id |
| Board.IdsUniqueFlat | src/components/TaskBoard.tsx:75-77 | ids distinct per column and across columns is the same as ids distinct on the flattened board |
| Board.Without | src/components/TaskBoard.tsx:113 | `filter(task => task.id !== id)`: every task with the id is dropped, every other task keeps its count, and the order of the rest is kept (the same filter is at line 209) |
| Board.WithoutAbsent | src/components/TaskBoard.tsx:209 | filtering out an id no task has returns the same list |
| Board.WithoutAppend | src/components/TaskBoard.tsx:205-211 | the filter distributes over concatenation |
| Board.InitialColumns | src/components/TaskBoard.tsx:10-31 | the default board has the four columns `todo`, `inProgress`, `willDo`, `done` in that order, and every column is empty |
| Board.InitialColumnsEmpty | src/components/TaskBoard.tsx:10-31 | the default board has the four columns in order, holds no task, and is well-formed |
| Board.Load | src/components/TaskBoard.tsx:34-53 | an absent or empty saved value, or one that does not decode, gives the default board; otherwise the decoded board |
| Board.AppendTask | src/components/TaskBoard.tsx:188-197 | the create updater keeps the number, order, ids and titles of the columns |
| Board.AppendTaskAt | src/components/TaskBoard.tsx:188-197 | with distinct column ids, only the chosen column changes, and it gains the new task at its end; the board gains exactly that task and one more in its count |
| Board.AppendTaskFresh | src/components/TaskBoard.tsx:182-197 | a task whose id is new to the board keeps the ids unique |
| Board.AppendTaskKeepsInvariant | src/components/TaskBoard.tsx:182-197 | a create with a fresh id keeps a well-formed board well-formed |
| Board.DeleteTask | src/components/TaskBoard.tsx:205-211 | the delete updater keeps the number, order, ids and titles of the columns |
| Board.DeleteTaskFlat | src/components/TaskBoard.tsx:205-211 | the board's tasks after a delete are its tasks before with the id filtered out |
| Board.DeleteTaskRemoves | src/components/TaskBoard.tsx:205-211 | no task with the id is left, and every other task keeps its count |
| Board.DeleteTaskUnknown | src/components/TaskBoard.tsx:205-211 | deleting an id that no task has leaves the board unchanged |
| Board.DeleteTaskIdempotent | src/components/TaskBoard.tsx:205-211 | deleting the same id twice is the same as deleting it once |
| Board.DeleteTaskKeepsIdsUnique | src/components/TaskBoard.tsx:205-211 | a delete keeps the ids unique |
| Board.DeleteTaskKeepsInvariant | src/components/TaskBoard.tsx:205-211 | a delete keeps a well-formed board well-formed |
| Board.MoveAcross | src/components/TaskBoard.tsx:103-125 | the drag-over updater keeps the number, order, ids and titles of the columns |
| Board.MoveAcrossUpdates | src/components/TaskBoard.tsx:105-122 | with distinct column ids, the source column loses the active task, the target column gains it at its end, and no other column changes |
| Board.MoveKeepsTasks | src/components/TaskBoard.tsx:109-122 | that move keeps the board's multiset of tasks |
| Board.MoveKeepsIdsUnique | src/components/TaskBoard.tsx:109-122 | that move keeps the ids unique |
| Board.DragOver | src/components/TaskBoard.tsx:84-126 | a drag-over keeps the number, order, ids and titles of the columns |
| Board.DragOverUnchanged | src/components/TaskBoard.tsx:87-101 | the board is unchanged when there is no target, when the active task or the target column is not found, or when both are the same column |
| Board.DragOverMoves | src/components/TaskBoard.tsx:93-125 | when the active task and the target are in different columns, the task leaves its column and joins the end of the target column, all other columns are untouched, and the tasks and id uniqueness are kept |
| Board.DragOverKeepsInvariant | src/components/TaskBoard.tsx:84-126 | every drag-over keeps the board's tasks and keeps a well-formed board well-formed |
| Board.Reorder | src/components/TaskBoard.tsx:159-167 | the drag-end updater keeps the columns' shape and each column's multiset of tasks |
| Board.ReorderUpdates | src/components/TaskBoard.tsx:160-166 | with distinct column ids, only the dragged task's column changes, by `arrayMove` |
| Board.ArrayMoveDistinct | src/components/TaskBoard.tsx:162 | `arrayMove` keeps ids distinct |
| Board.ReorderKeepsIdsUnique | src/components/TaskBoard.tsx:159-167 | the reorder keeps the ids unique |
| Board.DragEnd | src/components/TaskBoard.tsx:128-172 | a drop keeps the number, order, ids and titles of the columns |
| Board.DragEndReorders | src/components/TaskBoard.tsx:153-168 | dropping on a different task of the active task's own column moves the active task from its index to the target's index in that column only |
| Board.DragEndUnchanged | src/components/TaskBoard.tsx:131-158 | the board is unchanged when there is no target, a column is not found, the columns differ, or the two indices are equal |
| Board.DragEndKeepsInvariant | src/components/TaskBoard.tsx:128-172 | every drop keeps the board's tasks and keeps a well-formed board well-formed |
| Component.TaskBoard.constructor | src/components/TaskBoard.tsx:34-57 | the board comes from the loader; no drag is active and no form is open; the fallback board is well-formed and empty |
| Component.TaskBoard.HandleDragStart | src/components/TaskBoard.tsx:71-82 | when some task has the grabbed id, it becomes the active task; otherwise the active task is left as it was |
| Component.TaskBoard.HandleDragOver | src/components/TaskBoard.tsx:84-126 | the board becomes the drag-over result; its tasks and its well-formedness are kept |
| Component.TaskBoard.HandleDragEnd | src/components/TaskBoard.tsx:128-172 | the board becomes the drop result, the active task is cleared on every path, and the tasks and well-formedness are kept |
| Component.TaskBoard.HandleAddTask | src/components/TaskBoard.tsx:174-177 | the form opens on the chosen column with empty text |
| Component.TaskBoard.EditTaskContent | src/components/TaskBoard.tsx:259 | the form text becomes what was typed |
| Component.TaskBoard.CloseForm | src/components/TaskBoard.tsx:248 | the form closes (the Discard button at line 265 does the same) |
| Component.TaskBoard.HandleCreateTask | src/components/TaskBoard.tsx:179-202 | nothing changes without a chosen column or with blank text; otherwise the trimmed text becomes a new task at the end of the chosen column, the form resets, and a fresh id keeps the board well-formed |
| Component.TaskBoard.HandleDeleteTask | src/components/TaskBoard.tsx:204-213 | the board becomes the delete result and stays well-formed |
| Session.FiledBoard | src/components/TaskBoard.tsx:188-197 | filing a task into the first column of the default board gives the board holding just that task there |
| Session.FiledColumns | src/components/TaskBoard.tsx:93-99 | on that board the task's column is the first, and the last column's id names the last column unless the task's own id is `done` |
| Session.DragOverLast | src/components/TaskBoard.tsx:84-126 | dragging that task over the last column moves it to the last column |
| Session.DeleteMoved | src/components/TaskBoard.tsx:204-213 | deleting it then empties the board |
| Session.FileIntoFirstColumn | src/components/TaskBoard.tsx:174-202 | opening the first column's form and filing non-blank text on a fresh board files the trimmed text there |
| Session.DragToLastColumnAndDelete | src/components/TaskBoard.tsx:71-213 | after a drag to the last column, a release outside any column and a delete, the board is empty and well-formed and no drag is active |

## Left out

- Rendering is left out: the JSX, `Column.tsx`, `TaskCard.tsx`, `App.tsx`, the drag overlay, and the pointer sensor with its 8-pixel activation distance.
- Persistence is left out. The `useEffect` that writes the board to `localStorage` is not modelled. Reading storage, `JSON.parse` and the rebuilding of `Date` values are the `decode` parameter of `Board.Load`, which returns `None` where the code catches an exception.
- `uuidv4()` and `new Date()` are left out: they are the `newId` and `now` parameters of `HandleCreateTask`. That a generated id is new to the board is assumed, not proved.
- `createdAt` is an opaque `Timestamp`: dates are never compared or computed with.
- React's snapshot semantics are left out. The handlers read `columns` from the render closure while the updaters receive `prev`; the model uses one sequential board for both.
- `activeColumn === overColumn` compares objects in the code. The model compares the positions `find` returned, which is the same test on a board held in one place.
- Board.DragEnd: does not define the drop onto a column's own droppable area, where `findIndex` gives -1 for the target. Its `DropDefined` precondition excludes that drop, because the result depends on how the sortable library treats a negative index, and that library is not part of this model. The same precondition excludes out-of-range indices on a restored board with duplicate column ids.
- Component.TaskBoard.HandleDragEnd: inherits the `DropDefined` precondition of `Board.DragEnd`, for the same reason.
- A restored board whose column ids are not the four names is not representable. The `decode` parameter returns boards over the four-value `ColumnId`, while the code does not check the stored column ids (src/components/TaskBoard.tsx:38-46).
- The preservation lemmas assume the board was well-formed beforehand. A board restored from storage is not known to be, because the code does not check it.
