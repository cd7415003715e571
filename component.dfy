/**
 * The state of the TaskBoard component and its event handlers. The four
 * state hooks are the fields; each handler changes them in the order the
 * component's code does. An empty `activeTask` is the Idle phase of a drag,
 * a present one the Dragging phase.
 */
module Component {
  import opened Wrappers
  import opened Types
  import opened Text
  import opened Board

  class TaskBoard {
    var columns: Board
    var activeTask: Option<Task>
    var newTaskContent: string
    var addingToColumn: Option<ColumnId>

    /** Four columns in the fixed order, and every task id on the board used once. */
    ghost predicate Valid()
      reads this
    {
      WellFormed(columns)
    }

    /** Mounting: the board comes from storage (or the default); no drag, no form open. */
    constructor (saved: Option<string>, decode: string -> Option<Board>)
      ensures columns == Load(saved, decode)
      ensures activeTask == None && newTaskContent == "" && addingToColumn == None
      ensures saved.None? || saved.value == "" || decode(saved.value).None? ==> Valid() && Tasks(columns) == []
    {
      columns := Load(saved, decode);
      activeTask := None;
      newTaskContent := "";
      addingToColumn := None;
      InitialColumnsEmpty();
    }

    /** Idle (or Dragging) to Dragging, when the grabbed id belongs to a task on the board. */
    method HandleDragStart(activeId: string)
      modifies this`activeTask
      ensures FindTask(columns, activeId).Some? ==>
        activeTask == FindTask(columns, activeId) && activeTask.value.id == activeId && activeTask.value in Tasks(columns)
      ensures FindTask(columns, activeId).None? ==> activeTask == old(activeTask)
    {
      var task := FindTask(columns, activeId);
      if task.Some? {
        activeTask := task;
      }
    }

    /** The live cross-column move while dragging. */
    method HandleDragOver(activeId: string, over: Option<string>)
      modifies this`columns
      ensures columns == DragOver(old(columns), activeId, over)
      ensures old(Valid()) ==> Valid() && multiset(Tasks(columns)) == multiset(Tasks(old(columns)))
    {
      if over.None? {
        return;
      }
      var activeColumn := ActiveColumn(columns, activeId);
      var overColumn := OverColumn(columns, over.value);
      if activeColumn.None? || overColumn.None? || activeColumn.value == overColumn.value {
        return;
      }
      if Valid() {
        DragOverKeepsInvariant(columns, activeId, over);
      }
      columns := MoveAcross(columns, columns[activeColumn.value], columns[overColumn.value].id, activeId);
    }

    /** The drop: a reorder inside one column or nothing, and back to Idle on every path. */
    method HandleDragEnd(activeId: string, over: Option<string>)
      requires DropDefined(columns, activeId, over)
      modifies this`columns, this`activeTask
      ensures columns == DragEnd(old(columns), activeId, over)
      ensures activeTask == None
      ensures multiset(Tasks(columns)) == multiset(Tasks(old(columns)))
      ensures old(Valid()) ==> Valid()
    {
      DragEndKeepsInvariant(columns, activeId, over);
      if over.None? {
        activeTask := None;
        return;
      }
      var activeColumn := ActiveColumn(columns, activeId);
      var overColumn := OverColumn(columns, over.value);
      if activeColumn.None? || overColumn.None? {
        activeTask := None;
        return;
      }
      if columns[activeColumn.value].id == columns[overColumn.value].id {
        var activeTaskIndex := IndexOf(columns[activeColumn.value].tasks, activeId);
        var overTaskIndex := IndexOf(columns[overColumn.value].tasks, over.value);
        if activeTaskIndex != overTaskIndex {
          columns := Reorder(columns, columns[activeColumn.value].id, activeTaskIndex, overTaskIndex);
        }
      }
      activeTask := None;
    }

    /** Opening the form for a column, with empty text. */
    method HandleAddTask(columnId: ColumnId)
      modifies this`addingToColumn, this`newTaskContent
      ensures addingToColumn == Some(columnId) && newTaskContent == ""
    {
      addingToColumn := Some(columnId);
      newTaskContent := "";
    }

    /** Typing into the form's text area. */
    method EditTaskContent(text: string)
      modifies this`newTaskContent
      ensures newTaskContent == text
    {
      newTaskContent := text;
    }

    /** Closing the form without creating anything. */
    method CloseForm()
      modifies this`addingToColumn
      ensures addingToColumn == None
    {
      addingToColumn := None;
    }

    /**
     * Filing the form. `newId` and `now` stand for the generated id and the
     * current time. Nothing happens unless a column is chosen and the text
     * is not blank; otherwise the trimmed text becomes a new task at the end
     * of that column and the form is reset.
     */
    method HandleCreateTask(newId: string, now: Timestamp)
      modifies this`columns, this`addingToColumn, this`newTaskContent
      ensures old(addingToColumn).None? || Trim(old(newTaskContent)) == [] ==>
        && columns == old(columns)
        && addingToColumn == old(addingToColumn)
        && newTaskContent == old(newTaskContent)
      ensures old(addingToColumn).Some? && Trim(old(newTaskContent)) != [] ==>
        && columns == AppendTask(old(columns), old(addingToColumn).value, Task(newId, Trim(old(newTaskContent)), now))
        && addingToColumn == None
        && newTaskContent == ""
      ensures old(Valid()) && !HasId(Tasks(old(columns)), newId) ==> Valid()
    {
      if addingToColumn.None? || Trim(newTaskContent) == [] {
        return;
      }
      var newTask := Task(newId, Trim(newTaskContent), now);
      if Valid() && !HasId(Tasks(columns), newId) {
        AppendTaskKeepsInvariant(columns, addingToColumn.value, newTask);
      }
      columns := AppendTask(columns, addingToColumn.value, newTask);
      addingToColumn := None;
      newTaskContent := "";
    }

    /** Deleting a task by id from whichever column holds it. */
    method HandleDeleteTask(taskId: string)
      modifies this`columns
      ensures columns == DeleteTask(old(columns), taskId)
      ensures old(Valid()) ==> Valid()
    {
      if Valid() {
        DeleteTaskKeepsInvariant(columns, taskId);
      }
      columns := DeleteTask(columns, taskId);
    }
  }
}
