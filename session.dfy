/**
 * One session on a fresh board, written against the component: a report is
 * filed into the first column, dragged over the last column, released
 * outside any column and deleted. The lemmas compute each intermediate board
 * on values; the methods drive the handlers, so that their contracts are
 * shown strong enough to pin every step down.
 */
module Session {
  import opened Wrappers
  import opened Types
  import opened Text
  import opened Board
  import opened Component

  /** The default board with `t` in its first column. */
  function Filed(t: Task): Board {
    [ Column(Todo, "Leads to Follow", [t]),
      Column(InProgress, "Under Investigation", []),
      Column(WillDo, "Pending Review", []),
      Column(Done, "Case Closed", []) ]
  }

  /** The default board with `t` in its last column. */
  function Moved(t: Task): Board {
    [ Column(Todo, "Leads to Follow", []),
      Column(InProgress, "Under Investigation", []),
      Column(WillDo, "Pending Review", []),
      Column(Done, "Case Closed", [t]) ]
  }

  /** Filing into the first column of the default board. */
  lemma FiledBoard(t: Task)
    ensures AppendTask(InitialColumns(), Todo, t) == Filed(t)
  {
    var init := InitialColumns();
    InitialColumnsEmpty();
    AppendTaskAt(init, 0, t);
    assert init[0].tasks + [t] == [t];
    assert init[0 := init[0].(tasks := init[0].tasks + [t])] == Filed(t);
  }

  /** The filed board keeps the fixed columns and its one id, and grabbing the task finds it. */
  lemma FiledWellFormed(t: Task)
    ensures WellFormed(Filed(t))
    ensures FindTask(Filed(t), t.id) == Some(t)
  {
    var b := Filed(t);
    TasksOfFour(b);
    assert Tasks(b) == [t];
    IdsUniqueFlat(b);
  }

  /**
   * The task is found in the first column; the last column is under the
   * pointer, unless the task's own id is "done" and so names the first column.
   */
  lemma FiledColumns(t: Task)
    requires t.id != "done"
    ensures ActiveColumn(Filed(t), t.id) == Some(0)
    ensures OverColumn(Filed(t), "done") == Some(3)
  {
    var b := Filed(t);
    assert t in b[0].tasks;
    assert !IsOver(b[0], "done") && !IsOver(b[1], "done") && !IsOver(b[2], "done");
    assert IsOver(b[3], "done");
  }

  /** Taking the task out of the first column leaves it empty. */
  lemma FiledWithout(t: Task)
    ensures Find(Filed(t)[0].tasks, t.id) == Some(t)
    ensures Without(Filed(t)[0].tasks, t.id) == []
  {
    WithoutMembers(Filed(t)[0].tasks, t.id);
  }

  /** The drag-over lands in the cross-column case, from the first column to the last. */
  lemma DragOverFiled(t: Task)
    requires t.id != "done"
    ensures var b := Filed(t);
      DragOver(b, t.id, Some("done"))
        == b[0 := b[0].(tasks := Without(b[0].tasks, t.id))][3 := b[3].(tasks := b[3].tasks + [Find(b[0].tasks, t.id).value])]
  {
    var b := Filed(t);
    FiledWellFormed(t);
    FourColumnsDistinct(b);
    FiledColumns(t);
    DragOverMoves(b, t.id, "done", 0, 3);
  }

  /** Moving the task from the first column to the end of the last gives the moved board. */
  lemma MovedFromFiled(t: Task)
    ensures var b := Filed(t);
      b[0 := b[0].(tasks := Without(b[0].tasks, t.id))][3 := b[3].(tasks := b[3].tasks + [Find(b[0].tasks, t.id).value])]
        == Moved(t)
  {
    var b, m := Filed(t), Moved(t);
    FiledWithout(t);
    var u := b[0 := b[0].(tasks := [])][3 := b[3].(tasks := [] + [t])];
    assert |u| == 4 && u[0] == m[0] && u[1] == m[1] && u[2] == m[2] && u[3] == m[3];
  }

  /** Dragging the task over the last column's droppable moves it there. */
  lemma DragOverLast(t: Task)
    requires t.id != "done"
    ensures DragOver(Filed(t), t.id, Some("done")) == Moved(t)
  {
    DragOverFiled(t);
    MovedFromFiled(t);
  }

  /** Deleting the task empties the board again. */
  lemma DeleteMoved(t: Task)
    ensures Tasks(DeleteTask(Moved(t), t.id)) == []
  {
    var b := Moved(t);
    TasksOfFour(b);
    assert Tasks(b) == [t];
    DeleteTaskFlat(b, t.id);
    WithoutMembers(Tasks(b), t.id);
  }

  /** Opening the first column's form and submitting `content` files its trimmed text there. */
  method FileIntoFirstColumn(decode: string -> Option<Board>, id: string, content: string, now: Timestamp)
    returns (board: TaskBoard)
    requires Trim(content) != []
    ensures fresh(board)
    ensures board.columns == Filed(Task(id, Trim(content), now)) && board.activeTask == None
    ensures board.addingToColumn == None && board.newTaskContent == ""
  {
    board := new TaskBoard(None, decode);
    assert board.columns == InitialColumns() && board.activeTask == None;
    board.HandleAddTask(Todo);
    board.EditTaskContent(content);
    assert board.addingToColumn == Some(Todo) && board.newTaskContent == content;
    var t := Task(id, Trim(content), now);
    FiledBoard(t);
    board.HandleCreateTask(id, now);
    assert board.columns == AppendTask(InitialColumns(), Todo, t);
  }

  /** The filed task is dragged to the last column, dropped outside any column, then deleted. */
  method DragToLastColumnAndDelete(decode: string -> Option<Board>, id: string, content: string, now: Timestamp)
    returns (board: TaskBoard)
    requires Trim(content) != [] && id != "done"
    ensures fresh(board)
    ensures board.activeTask == None && Tasks(board.columns) == [] && board.Valid()
  {
    board := FileIntoFirstColumn(decode, id, content, now);
    var t := Task(id, Trim(content), now);
    FiledWellFormed(t);
    board.HandleDragStart(id);
    assert board.activeTask == Some(t);

    DragOverLast(t);
    board.HandleDragOver(id, Some("done"));
    assert board.columns == Moved(t);

    board.HandleDragEnd(id, None);
    assert board.activeTask == None && board.columns == Moved(t);

    DeleteMoved(t);
    board.HandleDeleteTask(id);
  }
}
