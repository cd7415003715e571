/** The records of the task board: tasks, the four column kinds and columns. */
module Types {

  /** A task's creation time, kept as an opaque instant (milliseconds since the epoch). */
  datatype Timestamp = Timestamp(millis: int)

  datatype Task = Task(id: string, content: string, createdAt: Timestamp)

  /** The closed set of column ids. */
  datatype ColumnId = Todo | InProgress | WillDo | Done

  datatype Column = Column(id: ColumnId, title: string, tasks: seq<Task>)

  /** The string each column id stands for; drop targets name columns by it. Each name belongs to one id. */
  function ColumnName(c: ColumnId): (r: string)
    ensures r == "todo" <==> c == Todo
    ensures r == "inProgress" <==> c == InProgress
    ensures r == "willDo" <==> c == WillDo
    ensures r == "done" <==> c == Done
  {
    match c
    case Todo => "todo"
    case InProgress => "inProgress"
    case WillDo => "willDo"
    case Done => "done"
  }
}
