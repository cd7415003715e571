/**
 * The board held by the TaskBoard component: an ordered sequence of columns,
 * each an ordered sequence of tasks. This module holds the lookups the drag
 * handlers make, the updaters they hand to `setColumns`, and what those
 * updaters preserve.
 */
module Board {
  import opened Wrappers
  import opened Types
  import opened Sortable

  type Board = seq<Column>

  // ---------------------------------------------------------------------------
  // Shape of the board
  // ---------------------------------------------------------------------------

  /** The fixed column order of the default board. */
  const ColumnOrder: seq<ColumnId> := [Todo, InProgress, WillDo, Done]

  /** Exactly the four columns, in the fixed order. */
  predicate FourColumns(b: Board) {
    |b| == |ColumnOrder| && forall k :: 0 <= k < |b| ==> b[k].id == ColumnOrder[k]
  }

  predicate DistinctColumnIds(b: Board) {
    forall k1, k2 :: 0 <= k1 < k2 < |b| ==> b[k1].id != b[k2].id
  }

  /** Same number of columns, with the same ids and titles in the same order. */
  predicate SameShape(b: Board, b': Board) {
    |b| == |b'| && forall k :: 0 <= k < |b| ==> b[k].id == b'[k].id && b[k].title == b'[k].title
  }

  lemma FourColumnsDistinct(b: Board)
    requires FourColumns(b)
    ensures DistinctColumnIds(b)
  {
  }

  lemma SameShapeFour(b: Board, b': Board)
    requires SameShape(b, b') && FourColumns(b)
    ensures FourColumns(b')
  {
  }

  // ---------------------------------------------------------------------------
  // Tasks and their ids
  // ---------------------------------------------------------------------------

  /** All tasks of the board, column after column (`columns.flatMap(col => col.tasks)`). */
  /** Some column of the board holds `t`. */
  predicate OnBoard(b: Board, t: Task) {
    exists k :: 0 <= k < |b| && t in b[k].tasks
  }

  function Tasks(b: Board): (r: seq<Task>)
    ensures forall t :: t in r <==> OnBoard(b, t)
  {
    if b == [] then []
    else
      var rest := Tasks(b[1..]);
      assert forall t :: t in rest <==> exists k :: 1 <= k < |b| && t in b[k].tasks by {
        forall t ensures t in rest <==> exists k :: 1 <= k < |b| && t in b[k].tasks {
          if t in rest {
            var k :| 0 <= k < |b[1..]| && t in b[1..][k].tasks;
            assert t in b[k + 1].tasks;
          }
          if exists k :: 1 <= k < |b| && t in b[k].tasks {
            var k :| 1 <= k < |b| && t in b[k].tasks;
            assert t in b[1..][k - 1].tasks;
          }
        }
      }
      b[0].tasks + rest
  }

  /** `tasks.some(task => task.id === id)`: some position holds a task with the id. */
  function HasId(ts: seq<Task>, id: string): (r: bool)
    ensures r <==> exists i :: 0 <= i < |ts| && ts[i].id == id
  {
    exists t :: t in ts && t.id == id
  }

  predicate DistinctIds(ts: seq<Task>) {
    forall i, j :: 0 <= i < j < |ts| ==> ts[i].id != ts[j].id
  }

  /**
   * No id occurs twice on the board: ids are distinct within each column and
   * no id is shared by two columns, so every task sits in exactly one column.
   */
  predicate IdsUnique(b: Board) {
    && (forall k :: 0 <= k < |b| ==> DistinctIds(b[k].tasks))
    && (forall k1, k2, t1, t2 ::
          0 <= k1 < |b| && 0 <= k2 < |b| && k1 != k2 && t1 in b[k1].tasks && t2 in b[k2].tasks
          ==> t1.id != t2.id)
  }

  /** The invariant of a board that every handler keeps. */
  predicate WellFormed(b: Board) {
    FourColumns(b) && IdsUnique(b)
  }

  // ---------------------------------------------------------------------------
  // Lookups
  // ---------------------------------------------------------------------------

  /** `tasks.findIndex(task => task.id === id)`: the first position holding `id`, or -1. */
  function IndexOf(ts: seq<Task>, id: string): (r: int)
    ensures -1 <= r < |ts|
    ensures 0 <= r ==> ts[r].id == id && forall k :: 0 <= k < r ==> ts[k].id != id
    ensures r < 0 <==> !HasId(ts, id)
  {
    if ts == [] then -1
    else if ts[0].id == id then 0
    else
      var r := IndexOf(ts[1..], id);
      assert forall t :: t in ts ==> t == ts[0] || t in ts[1..];
      if r < 0 then -1 else r + 1
  }

  /** `tasks.find(task => task.id === id)`. */
  function Find(ts: seq<Task>, id: string): (r: Option<Task>)
    ensures r.Some? <==> HasId(ts, id)
    ensures r.Some? ==> r.value in ts && r.value.id == id
    ensures r.Some? ==> exists i :: 0 <= i < |ts| && ts[i] == r.value && forall k :: 0 <= k < i ==> ts[k].id != id
    ensures forall t :: DistinctIds(ts) && t in ts && t.id == id ==> r == Some(t)
  {
    var i := IndexOf(ts, id);
    if i < 0 then None else Some(ts[i])
  }

  /** `columns.find(p)`, as the index of the first column satisfying `p`. */
  function FindColumn(b: Board, p: Column -> bool): (r: Option<nat>)
    ensures r.Some? ==> r.value < |b| && p(b[r.value]) && forall k :: 0 <= k < r.value ==> !p(b[k])
    ensures r.None? ==> forall k :: 0 <= k < |b| ==> !p(b[k])
  {
    if b == [] then None
    else if p(b[0]) then Some(0)
    else
      match FindColumn(b[1..], p)
      case None => None
      case Some(i) => Some(i + 1)
  }

  /** The column holding the dragged task: the first whose tasks include `activeId`. */
  function ActiveColumn(b: Board, activeId: string): (r: Option<nat>)
    ensures r.Some? ==> r.value < |b| && HasId(b[r.value].tasks, activeId)
    ensures r.Some? ==> forall k :: 0 <= k < r.value ==> !HasId(b[k].tasks, activeId)
    ensures r.None? <==> forall k :: 0 <= k < |b| ==> !HasId(b[k].tasks, activeId)
  {
    FindColumn(b, (c: Column) => HasId(c.tasks, activeId))
  }

  /** A drop target names a column either by its own id or by the id of a task in it. */
  predicate IsOver(c: Column, overId: string) {
    ColumnName(c.id) == overId || HasId(c.tasks, overId)
  }

  /** The column under the pointer: the first one that `overId` names. */
  function OverColumn(b: Board, overId: string): (r: Option<nat>)
    ensures r.Some? ==> r.value < |b| && IsOver(b[r.value], overId)
    ensures r.Some? ==> forall k :: 0 <= k < r.value ==> !IsOver(b[k], overId)
    ensures r.None? <==> forall k :: 0 <= k < |b| ==> !IsOver(b[k], overId)
  {
    FindColumn(b, (c: Column) => IsOver(c, overId))
  }

  /** `columns.flatMap(col => col.tasks).find(t => t.id === id)`. */
  function FindTask(b: Board, id: string): (r: Option<Task>)
    ensures r.Some? <==> HasId(Tasks(b), id)
    ensures r.Some? ==> r.value in Tasks(b) && r.value.id == id
  {
    Find(Tasks(b), id)
  }

  // ---------------------------------------------------------------------------
  // The flattened view of the board
  // ---------------------------------------------------------------------------

  /** Some column holds `id` exactly when the flattened board does. */
  lemma HasIdTasks(b: Board, id: string)
    ensures HasId(Tasks(b), id) <==> ActiveColumn(b, id).Some?
  {
    if HasId(Tasks(b), id) {
      var t :| t in Tasks(b) && t.id == id;
    }
    if ActiveColumn(b, id).Some? {
      var k := ActiveColumn(b, id).value;
      var t :| t in b[k].tasks && t.id == id;
    }
  }

  lemma {:induction false} FindAppend(x: seq<Task>, y: seq<Task>, id: string)
    ensures Find(x + y, id) == if HasId(x, id) then Find(x, id) else Find(y, id)
  {
    if x == [] {
      assert x + y == y;
    } else if x[0].id == id {
      assert (x + y)[0] == x[0];
      assert HasId(x, id);
    } else {
      var xy := x + y;
      assert xy[0] == x[0] && xy[1..] == x[1..] + y;
      FindAppend(x[1..], y, id);
      assert HasId(x, id) <==> HasId(x[1..], id) by {
        assert forall t :: t in x ==> t == x[0] || t in x[1..];
      }
      FindTail(x, id);
      FindTail(xy, id);
    }
  }

  /** Past a head with another id, `find` looks in the tail. */
  lemma FindTail(ts: seq<Task>, id: string)
    requires ts != [] && ts[0].id != id
    ensures Find(ts, id) == Find(ts[1..], id)
  {
    var i := IndexOf(ts[1..], id);
    if 0 <= i {
      assert ts[i + 1] == ts[1..][i];
    }
  }

  /**
   * The drag-start lookup over the flattened board finds the same task as
   * searching the column the other handlers pick as the active one.
   */
  lemma {:induction false} FindTaskInColumn(b: Board, id: string)
    ensures FindTask(b, id) == match ActiveColumn(b, id)
      case None => None
      case Some(k) => Find(b[k].tasks, id)
  {
    if b != [] {
      FindAppend(b[0].tasks, Tasks(b[1..]), id);
      FindTaskInColumn(b[1..], id);
      if !HasId(b[0].tasks, id) {
        match ActiveColumn(b[1..], id)
        case None =>
        case Some(k) =>
          assert b[1..][k] == b[k + 1];
          assert ActiveColumn(b, id) == Some(k + 1);
      }
    }
  }

  /** Replacing one column changes the board's tasks by exactly that column's tasks. */
  lemma {:induction false} TasksUpdate(b: Board, k: nat, c: Column)
    requires k < |b|
    ensures multiset(Tasks(b[k := c])) + multiset(b[k].tasks) == multiset(Tasks(b)) + multiset(c.tasks)
  {
    if k == 0 {
      assert b[k := c][1..] == b[1..];
    } else {
      var b' := b[k := c];
      assert b'[0] == b[0] && b'[1..] == b[1..][k - 1 := c];
      assert b[1..][k - 1] == b[k];
      TasksUpdate(b[1..], k - 1, c);
      calc {
        multiset(Tasks(b')) + multiset(b[k].tasks);
        multiset(b[0].tasks) + (multiset(Tasks(b[1..][k - 1 := c])) + multiset(b[1..][k - 1].tasks));
        multiset(b[0].tasks) + (multiset(Tasks(b[1..])) + multiset(c.tasks));
        multiset(Tasks(b)) + multiset(c.tasks);
      }
    }
  }

  /** Permuting the tasks inside each column permutes the tasks of the board. */
  lemma {:induction false} TasksPermuted(b: Board, b': Board)
    requires |b| == |b'|
    requires forall k :: 0 <= k < |b| ==> multiset(b[k].tasks) == multiset(b'[k].tasks)
    ensures multiset(Tasks(b)) == multiset(Tasks(b'))
  {
    if b != [] {
      TasksPermuted(b[1..], b'[1..]);
    }
  }

  lemma DistinctIdsAppend(x: seq<Task>, y: seq<Task>)
    ensures DistinctIds(x + y) <==>
      && DistinctIds(x) && DistinctIds(y)
      && forall t1, t2 :: t1 in x && t2 in y ==> t1.id != t2.id
  {
    var xy := x + y;
    if DistinctIds(xy) {
      forall t1, t2 | t1 in x && t2 in y ensures t1.id != t2.id {
        var i :| 0 <= i < |x| && x[i] == t1;
        var j :| 0 <= j < |y| && y[j] == t2;
        assert xy[i] == t1 && xy[|x| + j] == t2;
      }
      forall i, j | 0 <= i < j < |y| ensures y[i].id != y[j].id {
        assert y[i] == xy[|x| + i] && y[j] == xy[|x| + j];
      }
      forall i, j | 0 <= i < j < |x| ensures x[i].id != x[j].id {
        assert x[i] == xy[i] && x[j] == xy[j];
      }
    }
    if && DistinctIds(x) && DistinctIds(y)
       && forall t1, t2 :: t1 in x && t2 in y ==> t1.id != t2.id
    {
      forall i, j | 0 <= i < j < |xy| ensures xy[i].id != xy[j].id {
        if j < |x| {
          assert xy[i] == x[i] && xy[j] == x[j];
        } else if i < |x| {
          assert xy[i] == x[i] && xy[j] == y[j - |x|];
          assert x[i] in x && y[j - |x|] in y;
        } else {
          assert xy[i] == y[i - |x|] && xy[j] == y[j - |x|];
        }
      }
    }
  }

  predicate HeadApart(b: Board)
    requires b != []
  {
    forall t1, t2 :: t1 in b[0].tasks && t2 in Tasks(b[1..]) ==> t1.id != t2.id
  }

  /** Uniqueness of a non-empty board, split into its first column and the rest. */
  lemma IdsUniqueCons(b: Board)
    requires b != []
    ensures IdsUnique(b) <==> DistinctIds(b[0].tasks) && IdsUnique(b[1..]) && HeadApart(b)
  {
    if IdsUnique(b) {
      IdsUniqueSplit(b);
    }
    if DistinctIds(b[0].tasks) && IdsUnique(b[1..]) && HeadApart(b) {
      IdsUniqueJoin(b);
    }
  }

  lemma IdsUniqueSplit(b: Board)
    requires b != [] && IdsUnique(b)
    ensures DistinctIds(b[0].tasks) && IdsUnique(b[1..]) && HeadApart(b)
  {
    var rest := b[1..];
    forall t1, t2 | t1 in b[0].tasks && t2 in Tasks(rest) ensures t1.id != t2.id {
      var k :| 0 <= k < |rest| && t2 in rest[k].tasks;
      assert t2 in b[k + 1].tasks;
    }
    forall k1, k2, t1, t2 | 0 <= k1 < |rest| && 0 <= k2 < |rest| && k1 != k2
      && t1 in rest[k1].tasks && t2 in rest[k2].tasks
      ensures t1.id != t2.id
    {
      assert t1 in b[k1 + 1].tasks && t2 in b[k2 + 1].tasks;
    }
    forall k | 0 <= k < |rest| ensures DistinctIds(rest[k].tasks) {
      assert rest[k] == b[k + 1];
    }
  }

  lemma IdsUniqueJoin(b: Board)
    requires b != [] && DistinctIds(b[0].tasks) && IdsUnique(b[1..]) && HeadApart(b)
    ensures IdsUnique(b)
  {
    var rest := b[1..];
    forall k1, k2, t1, t2 | 0 <= k1 < |b| && 0 <= k2 < |b| && k1 != k2
      && t1 in b[k1].tasks && t2 in b[k2].tasks
      ensures t1.id != t2.id
    {
      if k1 == 0 {
        assert t2 in rest[k2 - 1].tasks;
      } else if k2 == 0 {
        assert t1 in rest[k1 - 1].tasks;
      } else {
        assert t1 in rest[k1 - 1].tasks && t2 in rest[k2 - 1].tasks;
      }
    }
    forall k | 0 <= k < |b| ensures DistinctIds(b[k].tasks) {
      if k > 0 {
        assert b[k] == rest[k - 1];
      }
    }
  }

  /** Uniqueness column by column is uniqueness over the flattened board. */
  lemma {:induction false} IdsUniqueFlat(b: Board)
    ensures IdsUnique(b) <==> DistinctIds(Tasks(b))
  {
    if b != [] {
      IdsUniqueFlat(b[1..]);
      DistinctIdsAppend(b[0].tasks, Tasks(b[1..]));
      IdsUniqueCons(b);
    }
  }

  // ---------------------------------------------------------------------------
  // Filtering a column
  // ---------------------------------------------------------------------------

  /** `r` is `s` with some elements left out and the rest in their order. */
  predicate IsSubsequence<T(==)>(r: seq<T>, s: seq<T>)
    decreases |s|
  {
    if r == [] then true
    else if s == [] then false
    else (r[0] == s[0] && IsSubsequence(r[1..], s[1..])) || IsSubsequence(r, s[1..])
  }

  /** `tasks.filter(task => task.id !== id)`. */
  function Without(ts: seq<Task>, id: string): (r: seq<Task>)
    ensures forall t :: multiset(r)[t] == if t.id == id then 0 else multiset(ts)[t]
    ensures IsSubsequence(r, ts)
  {
    if ts == [] then []
    else
      var rest := Without(ts[1..], id);
      assert ts == [ts[0]] + ts[1..];
      if ts[0].id != id then
        assert ([ts[0]] + rest)[1..] == rest;
        [ts[0]] + rest
      else
        rest
  }

  /** What the filter keeps: exactly the tasks whose id differs. */
  lemma WithoutMembers(ts: seq<Task>, id: string)
    ensures forall t :: t in Without(ts, id) <==> t in ts && t.id != id
  {
    var r := Without(ts, id);
    forall t ensures t in r <==> t in ts && t.id != id {
      assert t in r <==> multiset(r)[t] > 0;
      assert t in ts <==> multiset(ts)[t] > 0;
    }
  }

  /** Filtering out an id no task has changes nothing. */
  lemma {:induction false} WithoutAbsent(ts: seq<Task>, id: string)
    requires !HasId(ts, id)
    ensures Without(ts, id) == ts
  {
    if ts != [] {
      assert ts[0] in ts;
      assert !HasId(ts[1..], id) by {
        forall k | 0 <= k < |ts[1..]| ensures ts[1..][k].id != id {
          assert ts[1..][k] == ts[k + 1];
        }
      }
      WithoutAbsent(ts[1..], id);
      assert ts == [ts[0]] + ts[1..];
    }
  }

  /** Filtering keeps ids distinct. */
  lemma {:induction false} WithoutDistinct(ts: seq<Task>, id: string)
    requires DistinctIds(ts)
    ensures DistinctIds(Without(ts, id))
  {
    if ts != [] {
      var rest := Without(ts[1..], id);
      assert DistinctIds(ts[1..]) by {
        forall i, j | 0 <= i < j < |ts[1..]| ensures ts[1..][i].id != ts[1..][j].id {
          assert ts[1..][i] == ts[i + 1] && ts[1..][j] == ts[j + 1];
        }
      }
      WithoutDistinct(ts[1..], id);
      if ts[0].id != id {
        WithoutMembers(ts[1..], id);
        forall t | t in rest ensures t.id != ts[0].id {
          var j :| 0 <= j < |ts[1..]| && ts[1..][j] == t;
          assert ts[j + 1] == t;
        }
        DistinctIdsAppend([ts[0]], rest);
      }
    }
  }

  /** Filtering distributes over concatenation. */
  lemma {:induction false} WithoutAppend(x: seq<Task>, y: seq<Task>, id: string)
    ensures Without(x + y, id) == Without(x, id) + Without(y, id)
  {
    if x == [] {
      assert x + y == y;
    } else {
      assert (x + y)[0] == x[0] && (x + y)[1..] == x[1..] + y;
      WithoutAppend(x[1..], y, id);
    }
  }

  /** Filtering the only task with a given id out of a column takes out just that task. */
  lemma {:induction false} WithoutOnly(ts: seq<Task>, t: Task)
    requires DistinctIds(ts) && t in ts
    ensures multiset(ts) == multiset(Without(ts, t.id)) + multiset{t}
    ensures |Without(ts, t.id)| == |ts| - 1
  {
    assert ts == [ts[0]] + ts[1..];
    TailDistinct(ts);
    if ts[0] == t {
      WithoutHead(ts);
    } else {
      assert ts[0].id != t.id;
      assert t in ts[1..];
      WithoutOnly(ts[1..], t);
      assert Without(ts, t.id) == [ts[0]] + Without(ts[1..], t.id);
    }
  }

  lemma TailDistinct(ts: seq<Task>)
    requires ts != [] && DistinctIds(ts)
    ensures DistinctIds(ts[1..])
    ensures !HasId(ts[1..], ts[0].id)
  {
    forall x | x in ts[1..] ensures x.id != ts[0].id {
      var j :| 0 <= j < |ts[1..]| && ts[1..][j] == x;
      assert ts[j + 1] == x;
    }
  }

  /** A head whose id occurs nowhere else is all the filter takes out. */
  lemma WithoutHead(ts: seq<Task>)
    requires ts != [] && !HasId(ts[1..], ts[0].id)
    ensures Without(ts, ts[0].id) == ts[1..]
  {
    WithoutAbsent(ts[1..], ts[0].id);
  }


  // ---------------------------------------------------------------------------
  // The default board and loading
  // ---------------------------------------------------------------------------

  /** The board used when nothing usable is saved: four empty columns. */
  function InitialColumns(): (r: Board)
    ensures FourColumns(r)
    ensures forall k :: 0 <= k < |r| ==> r[k].tasks == []
  {
    [ Column(Todo, "Leads to Follow", []),
      Column(InProgress, "Under Investigation", []),
      Column(WillDo, "Pending Review", []),
      Column(Done, "Case Closed", []) ]
  }

  lemma InitialColumnsEmpty()
    ensures WellFormed(InitialColumns()) && Tasks(InitialColumns()) == []
  {
    var r := InitialColumns();
    assert forall k :: 0 <= k < |r| ==> r[k].tasks == [];
    assert FourColumns(r);
    TasksOfFour(r);
  }

  /** The tasks of a four-column board, column by column. */
  /** One unfolding of `Tasks`: the first column's tasks, then the rest. */
  lemma TasksStep(b: Board)
    requires b != []
    ensures Tasks(b) == b[0].tasks + Tasks(b[1..])
  {
  }

  lemma TasksOfFour(b: Board)
    requires |b| == 4
    ensures Tasks(b) == b[0].tasks + b[1].tasks + b[2].tasks + b[3].tasks
  {
    var b1, b2, b3 := b[1..], b[2..], b[3..];
    assert b1[0] == b[1] && b2[0] == b[2] && b3[0] == b[3];
    assert b3[1..] == [] && b2[1..] == b3 && b1[1..] == b2;
    TasksStep(b);
    TasksStep(b1);
    TasksStep(b2);
    TasksStep(b3);
    assert Tasks(b3) == b[3].tasks + [];
  }

  /**
   * The lazy initialiser of `columns`. `saved` is what storage holds under the
   * board's key; `decode` stands for `JSON.parse` followed by the mapping that
   * rebuilds each task's `createdAt`, and answers `None` where either throws.
   * A missing or empty string, or one that does not decode, gives the default
   * board; anything that decodes is taken as it is.
   */
  function Load(saved: Option<string>, decode: string -> Option<Board>): (r: Board)
    ensures saved.None? || saved.value == "" || decode(saved.value).None? ==> r == InitialColumns()
    ensures saved.Some? && saved.value != "" && decode(saved.value).Some? ==> r == decode(saved.value).value
  {
    match saved
    case None => InitialColumns()
    case Some(text) =>
      if text == "" then InitialColumns()
      else
        match decode(text)
        case None => InitialColumns()
        case Some(columns) => columns
  }

  // ---------------------------------------------------------------------------
  // Updaters handed to setColumns
  // ---------------------------------------------------------------------------

  /** The create updater: `t` goes at the end of each column whose id is `cid`. */
  function AppendTask(b: Board, cid: ColumnId, t: Task): (r: Board)
    ensures SameShape(b, r)
  {
    seq(|b|, k requires 0 <= k < |b| =>
      if b[k].id == cid then b[k].(tasks := b[k].tasks + [t]) else b[k])
  }

  /** The delete updater: every column loses its tasks with `id`. */
  function DeleteTask(b: Board, id: string): (r: Board)
    ensures SameShape(b, r)
  {
    seq(|b|, k requires 0 <= k < |b| => b[k].(tasks := Without(b[k].tasks, id)))
  }

  /**
   * The drag-over updater: the active task, found in the `source` column,
   * leaves every column with `source`'s id and joins the end of every column
   * with `targetId`.
   */
  function MoveAcross(b: Board, source: Column, targetId: ColumnId, activeId: string): (r: Board)
    ensures SameShape(b, r)
  {
    match Find(source.tasks, activeId)
    case None => b
    case Some(t) =>
      seq(|b|, k requires 0 <= k < |b| =>
        if b[k].id == source.id then b[k].(tasks := Without(b[k].tasks, activeId))
        else if b[k].id == targetId then b[k].(tasks := b[k].tasks + [t])
        else b[k])
  }

  /** Both positions exist in every column with id `cid`. */
  predicate ReorderInRange(b: Board, cid: ColumnId, from: int, to: int) {
    forall k :: 0 <= k < |b| && b[k].id == cid ==> 0 <= from < |b[k].tasks| && 0 <= to < |b[k].tasks|
  }

  /** The drag-end updater: `arrayMove(from, to)` on each column with id `cid`. */
  function Reorder(b: Board, cid: ColumnId, from: nat, to: nat): (r: Board)
    requires ReorderInRange(b, cid, from, to)
    ensures SameShape(b, r)
    ensures forall k :: 0 <= k < |b| ==> multiset(r[k].tasks) == multiset(b[k].tasks)
  {
    seq(|b|, k requires 0 <= k < |b| =>
      if b[k].id == cid then b[k].(tasks := ArrayMove(b[k].tasks, from, to)) else b[k])
  }

  // ---------------------------------------------------------------------------
  // The drag handlers as functions of the board and the event
  // ---------------------------------------------------------------------------

  /**
   * `handleDragOver` for a drag of `activeId` over the target `over` (None
   * when the pointer is over no droppable): a move to another column, or
   * nothing.
   */
  function DragOver(b: Board, activeId: string, over: Option<string>): (r: Board)
    ensures SameShape(b, r)
  {
    if over.None? then b
    else
      var a := ActiveColumn(b, activeId);
      var o := OverColumn(b, over.value);
      if a.None? || o.None? || a.value == o.value then b
      else MoveAcross(b, b[a.value], b[o.value].id, activeId)
  }

  /**
   * The drops whose reorder this model defines: when `handleDragEnd` would
   * call `arrayMove`, both indices exist in every column it is applied to.
   */
  predicate DropDefined(b: Board, activeId: string, over: Option<string>) {
    over.Some? ==>
      var a := ActiveColumn(b, activeId);
      var o := OverColumn(b, over.value);
      a.Some? && o.Some? && b[a.value].id == b[o.value].id ==>
        var from := IndexOf(b[a.value].tasks, activeId);
        var to := IndexOf(b[o.value].tasks, over.value);
        from != to ==> ReorderInRange(b, b[a.value].id, from, to)
  }

  /** `handleDragEnd`'s effect on the board: a reorder inside one column, or nothing. */
  function DragEnd(b: Board, activeId: string, over: Option<string>): (r: Board)
    requires DropDefined(b, activeId, over)
    ensures SameShape(b, r)
  {
    if over.None? then b
    else
      var a := ActiveColumn(b, activeId);
      var o := OverColumn(b, over.value);
      if a.None? || o.None? || b[a.value].id != b[o.value].id then b
      else
        var from := IndexOf(b[a.value].tasks, activeId);
        var to := IndexOf(b[o.value].tasks, over.value);
        if from == to then b else Reorder(b, b[a.value].id, from, to)
  }

  // ---------------------------------------------------------------------------
  // What the updaters do and preserve
  // ---------------------------------------------------------------------------

  /** The board's task count. */
  function TaskCount(b: Board): nat {
    |Tasks(b)|
  }

  lemma MultisetCancel<T>(a: multiset<T>, b: multiset<T>, c: multiset<T>)
    requires a + c == b + c
    ensures a == b
  {
    forall x ensures a[x] == b[x] {
      assert (a + c)[x] == (b + c)[x];
    }
  }

  /** The create updater, on a board whose column ids are distinct, changes one column. */
  lemma AppendTaskUpdates(b: Board, k: nat, t: Task)
    requires DistinctColumnIds(b) && k < |b|
    ensures AppendTask(b, b[k].id, t) == b[k := b[k].(tasks := b[k].tasks + [t])]
  {
    var r := AppendTask(b, b[k].id, t);
    forall j | 0 <= j < |b| ensures r[j] == b[k := b[k].(tasks := b[k].tasks + [t])][j] {
      if j != k {
        assert b[j].id != b[k].id;
      }
    }
  }

  /**
   * Creating into the column at index `k` puts `t` at the end of that column
   * only, and adds exactly `t` to the board's tasks.
   */
  lemma AppendTaskAt(b: Board, k: nat, t: Task)
    requires DistinctColumnIds(b) && k < |b|
    ensures AppendTask(b, b[k].id, t) == b[k := b[k].(tasks := b[k].tasks + [t])]
    ensures multiset(Tasks(AppendTask(b, b[k].id, t))) == multiset(Tasks(b)) + multiset{t}
    ensures TaskCount(AppendTask(b, b[k].id, t)) == TaskCount(b) + 1
  {
    var c := b[k].(tasks := b[k].tasks + [t]);
    AppendTaskUpdates(b, k, t);
    TasksUpdate(b, k, c);
    assert multiset(c.tasks) == multiset(b[k].tasks) + multiset{t};
    MultisetCancel(multiset(Tasks(b[k := c])), multiset(Tasks(b)) + multiset{t}, multiset(b[k].tasks));
  }

  /** Adding a task whose id no column has keeps the board's ids unique. */
  lemma AppendFreshAt(b: Board, k: nat, t: Task)
    requires IdsUnique(b) && k < |b|
    requires forall j :: 0 <= j < |b| ==> !HasId(b[j].tasks, t.id)
    ensures IdsUnique(b[k := b[k].(tasks := b[k].tasks + [t])])
  {
    var r := b[k := b[k].(tasks := b[k].tasks + [t])];
    DistinctIdsAppend(b[k].tasks, [t]);
    forall k1, k2, t1, t2 | 0 <= k1 < |r| && 0 <= k2 < |r| && k1 != k2
      && t1 in r[k1].tasks && t2 in r[k2].tasks
      ensures t1.id != t2.id
    {
      assert t1 in b[k1].tasks || (k1 == k && t1 == t);
      assert t2 in b[k2].tasks || (k2 == k && t2 == t);
    }
  }

  /** A task with a fresh id keeps the ids on the board unique. */
  lemma AppendTaskFresh(b: Board, cid: ColumnId, t: Task)
    requires DistinctColumnIds(b) && IdsUnique(b)
    requires !HasId(Tasks(b), t.id)
    ensures IdsUnique(AppendTask(b, cid, t))
  {
    HasIdTasks(b, t.id);
    if k :| 0 <= k < |b| && b[k].id == cid {
      AppendTaskUpdates(b, k, t);
      AppendFreshAt(b, k, t);
    } else {
      assert AppendTask(b, cid, t) == b;
    }
  }

  /** Deleting from every column is filtering the flattened board. */
  lemma {:induction false} DeleteTaskFlat(b: Board, id: string)
    ensures Tasks(DeleteTask(b, id)) == Without(Tasks(b), id)
  {
    if b != [] {
      assert DeleteTask(b, id)[0].tasks == Without(b[0].tasks, id);
      assert DeleteTask(b, id)[1..] == DeleteTask(b[1..], id);
      DeleteTaskFlat(b[1..], id);
      WithoutAppend(b[0].tasks, Tasks(b[1..]), id);
    }
  }

  /** After a delete no task with the id is left, and every other task keeps its count. */
  lemma DeleteTaskRemoves(b: Board, id: string)
    ensures !HasId(Tasks(DeleteTask(b, id)), id)
    ensures forall t :: multiset(Tasks(DeleteTask(b, id)))[t] == if t.id == id then 0 else multiset(Tasks(b))[t]
  {
    DeleteTaskFlat(b, id);
    WithoutMembers(Tasks(b), id);
  }

  /** Deleting an id no task has leaves the board as it is. */
  lemma DeleteTaskUnknown(b: Board, id: string)
    requires !HasId(Tasks(b), id)
    ensures DeleteTask(b, id) == b
  {
    HasIdTasks(b, id);
    forall k | 0 <= k < |b| ensures DeleteTask(b, id)[k] == b[k] {
      WithoutAbsent(b[k].tasks, id);
    }
  }

  /** A second delete of the same id changes nothing. */
  lemma DeleteTaskIdempotent(b: Board, id: string)
    ensures DeleteTask(DeleteTask(b, id), id) == DeleteTask(b, id)
  {
    DeleteTaskRemoves(b, id);
    DeleteTaskUnknown(DeleteTask(b, id), id);
  }

  lemma DeleteTaskKeepsIdsUnique(b: Board, id: string)
    requires IdsUnique(b)
    ensures IdsUnique(DeleteTask(b, id))
  {
    var r := DeleteTask(b, id);
    forall k | 0 <= k < |r| ensures DistinctIds(r[k].tasks) && forall t :: t in r[k].tasks ==> t in b[k].tasks {
      WithoutDistinct(b[k].tasks, id);
      WithoutMembers(b[k].tasks, id);
    }
  }

  /** The drag-over move, on a board whose column ids are distinct, changes two columns. */
  lemma MoveAcrossUpdates(b: Board, i: nat, j: nat, activeId: string, t: Task)
    requires DistinctColumnIds(b) && i < |b| && j < |b| && i != j
    requires Find(b[i].tasks, activeId) == Some(t)
    ensures MoveAcross(b, b[i], b[j].id, activeId)
         == b[i := b[i].(tasks := Without(b[i].tasks, activeId))][j := b[j].(tasks := b[j].tasks + [t])]
  {
    var r := MoveAcross(b, b[i], b[j].id, activeId);
    var e := b[i := b[i].(tasks := Without(b[i].tasks, activeId))][j := b[j].(tasks := b[j].tasks + [t])];
    forall k | 0 <= k < |b| ensures r[k] == e[k] {
      if k != i {
        assert b[k].id != b[i].id;
      }
      if k != j {
        assert b[k].id != b[j].id;
      }
    }
  }

  /** Moving the only task with its id from column `i` to the end of column `j` keeps the tasks. */
  lemma MoveKeepsTasks(b: Board, i: nat, j: nat, t: Task)
    requires i < |b| && j < |b| && i != j
    requires DistinctIds(b[i].tasks) && t in b[i].tasks
    ensures var r := b[i := b[i].(tasks := Without(b[i].tasks, t.id))][j := b[j].(tasks := b[j].tasks + [t])];
      multiset(Tasks(r)) == multiset(Tasks(b))
  {
    var w := Without(b[i].tasks, t.id);
    var ci := b[i].(tasks := w);
    var b1 := b[i := ci];
    var cj := b[j].(tasks := b[j].tasks + [t]);
    var b2 := b1[j := cj];
    TasksUpdate(b, i, ci);
    WithoutOnly(b[i].tasks, t);
    MultisetCancel(multiset(Tasks(b1)) + multiset{t}, multiset(Tasks(b)), multiset(w));
    assert b1[j] == b[j];
    TasksUpdate(b1, j, cj);
    assert multiset(cj.tasks) == multiset(b[j].tasks) + multiset{t};
    MultisetCancel(multiset(Tasks(b2)), multiset(Tasks(b1)) + multiset{t}, multiset(b[j].tasks));
  }

  /** The same move keeps the ids on the board unique. */
  lemma MoveKeepsIdsUnique(b: Board, i: nat, j: nat, t: Task)
    requires i < |b| && j < |b| && i != j
    requires IdsUnique(b) && t in b[i].tasks
    ensures IdsUnique(b[i := b[i].(tasks := Without(b[i].tasks, t.id))][j := b[j].(tasks := b[j].tasks + [t])])
  {
    var r := b[i := b[i].(tasks := Without(b[i].tasks, t.id))][j := b[j].(tasks := b[j].tasks + [t])];
    forall k | 0 <= k < |r| ensures DistinctIds(r[k].tasks) {
      MovedColumnDistinct(b, i, j, t, k);
    }
    forall k1, k2, t1, t2 | 0 <= k1 < |r| && 0 <= k2 < |r| && k1 != k2
      && t1 in r[k1].tasks && t2 in r[k2].tasks
      ensures t1.id != t2.id
    {
      MovedMember(b, i, j, t, k1, t1);
      MovedMember(b, i, j, t, k2, t2);
      if t1 != t && t2 != t {
        assert t1 in b[k1].tasks && t2 in b[k2].tasks;
      }
    }
  }

  /** Each column of the moved board keeps its ids distinct. */
  lemma MovedColumnDistinct(b: Board, i: nat, j: nat, t: Task, k: nat)
    requires i < |b| && j < |b| && i != j && k < |b|
    requires IdsUnique(b) && t in b[i].tasks
    ensures DistinctIds(b[i := b[i].(tasks := Without(b[i].tasks, t.id))][j := b[j].(tasks := b[j].tasks + [t])][k].tasks)
  {
    if k == i {
      WithoutDistinct(b[i].tasks, t.id);
    } else if k == j {
      assert DistinctIds(b[j].tasks);
      assert forall u :: u in b[j].tasks ==> u.id != t.id;
      DistinctIdsAppend(b[j].tasks, [t]);
    } else {
      assert DistinctIds(b[k].tasks);
    }
  }

  /** Where a task of the moved board comes from: its own column, or the moved task at `j`. */
  lemma MovedMember(b: Board, i: nat, j: nat, t: Task, k: nat, u: Task)
    requires i < |b| && j < |b| && i != j && k < |b|
    requires u in b[i := b[i].(tasks := Without(b[i].tasks, t.id))][j := b[j].(tasks := b[j].tasks + [t])][k].tasks
    ensures u in b[k].tasks || (k == j && u == t)
    ensures k == i ==> u.id != t.id
  {
    if k == i {
      WithoutMembers(b[i].tasks, t.id);
    } else if k == j {
      assert u in b[j].tasks + [t];
    }
  }

  /**
   * A drag over another column than the active task's own moves that task to
   * the end of the hovered column; nothing else changes, no task is gained or
   * lost, and ids stay unique.
   */
  lemma DragOverMoves(b: Board, activeId: string, overId: string, i: nat, j: nat)
    requires DistinctColumnIds(b) && IdsUnique(b)
    requires ActiveColumn(b, activeId) == Some(i) && OverColumn(b, overId) == Some(j) && i != j
    ensures Find(b[i].tasks, activeId).Some?
    ensures var t := Find(b[i].tasks, activeId).value;
      var r := DragOver(b, activeId, Some(overId));
      && t in b[i].tasks && t.id == activeId
      && r == b[i := b[i].(tasks := Without(b[i].tasks, activeId))][j := b[j].(tasks := b[j].tasks + [t])]
      && multiset(Tasks(r)) == multiset(Tasks(b))
      && IdsUnique(r)
  {
    assert HasId(b[i].tasks, activeId) && DistinctIds(b[i].tasks);
    var t := Find(b[i].tasks, activeId).value;
    DragOverIsMove(b, activeId, overId, i, j);
    MoveAcrossUpdates(b, i, j, activeId, t);
    MoveKeepsTasks(b, i, j, t);
    MoveKeepsIdsUnique(b, i, j, t);
  }

  /** With both columns found and different, `handleDragOver` runs the move updater. */
  lemma DragOverIsMove(b: Board, activeId: string, overId: string, i: nat, j: nat)
    requires ActiveColumn(b, activeId) == Some(i) && OverColumn(b, overId) == Some(j) && i != j
    ensures DragOver(b, activeId, Some(overId)) == MoveAcross(b, b[i], b[j].id, activeId)
  {
  }

  /** The four cases in which a drag-over leaves the board alone. */
  lemma DragOverUnchanged(b: Board, activeId: string, over: Option<string>)
    requires || over.None?
             || ActiveColumn(b, activeId).None?
             || OverColumn(b, over.value).None?
             || ActiveColumn(b, activeId) == OverColumn(b, over.value)
    ensures DragOver(b, activeId, over) == b
  {
  }

  /** Every drag-over keeps a well-formed board well-formed and keeps its tasks. */
  lemma DragOverKeepsInvariant(b: Board, activeId: string, over: Option<string>)
    requires WellFormed(b)
    ensures WellFormed(DragOver(b, activeId, over))
    ensures multiset(Tasks(DragOver(b, activeId, over))) == multiset(Tasks(b))
  {
    var r := DragOver(b, activeId, over);
    FourColumnsDistinct(b);
    SameShapeFour(b, r);
    if over.Some? {
      var a := ActiveColumn(b, activeId);
      var o := OverColumn(b, over.value);
      if a.Some? && o.Some? && a.value != o.value {
        DragOverMoves(b, activeId, over.value, a.value, o.value);
      } else {
        assert r == b;
      }
    }
  }

  /** `arrayMove` keeps ids distinct: it only permutes positions. */
  lemma ArrayMoveDistinct(s: seq<Task>, from: nat, to: nat)
    requires from < |s| && to < |s| && DistinctIds(s)
    ensures DistinctIds(ArrayMove(s, from, to))
  {
    var r := ArrayMove(s, from, to);
    forall i, j | 0 <= i < j < |r| ensures r[i].id != r[j].id {
      ArrayMoveAt(s, from, to, i);
      ArrayMoveAt(s, from, to, j);
      OriginInjective(from, to, i, j);
    }
  }

  lemma ReorderKeepsIdsUnique(b: Board, cid: ColumnId, from: nat, to: nat)
    requires ReorderInRange(b, cid, from, to) && IdsUnique(b)
    ensures IdsUnique(Reorder(b, cid, from, to))
  {
    var r := Reorder(b, cid, from, to);
    forall k | 0 <= k < |r| ensures DistinctIds(r[k].tasks) && forall t :: t in r[k].tasks <==> t in b[k].tasks {
      if b[k].id == cid {
        ArrayMoveDistinct(b[k].tasks, from, to);
      }
      forall t ensures t in r[k].tasks <==> t in b[k].tasks {
        assert t in r[k].tasks <==> multiset(r[k].tasks)[t] > 0;
        assert t in b[k].tasks <==> multiset(b[k].tasks)[t] > 0;
      }
    }
  }

  /** The reorder, on a board whose column ids are distinct, changes one column. */
  lemma ReorderUpdates(b: Board, k: nat, from: nat, to: nat)
    requires DistinctColumnIds(b) && k < |b| && from < |b[k].tasks| && to < |b[k].tasks|
    ensures ReorderInRange(b, b[k].id, from, to)
    ensures Reorder(b, b[k].id, from, to) == b[k := b[k].(tasks := ArrayMove(b[k].tasks, from, to))]
  {
    var r := Reorder(b, b[k].id, from, to);
    forall j | 0 <= j < |b| ensures r[j] == b[k := b[k].(tasks := ArrayMove(b[k].tasks, from, to))][j] {
      if j != k {
        assert b[j].id != b[k].id;
      }
    }
  }

  /**
   * Dropping the active task on another task of its own column applies
   * `arrayMove` from the active task's index to the target's, to that column
   * only.
   */
  lemma DragEndReorders(b: Board, activeId: string, overId: string, i: nat)
    requires DistinctColumnIds(b)
    requires ActiveColumn(b, activeId) == Some(i) && OverColumn(b, overId) == Some(i)
    requires HasId(b[i].tasks, overId) && activeId != overId
    ensures DropDefined(b, activeId, Some(overId))
    ensures var from := IndexOf(b[i].tasks, activeId);
      var to := IndexOf(b[i].tasks, overId);
      && 0 <= from && 0 <= to && from != to
      && DragEnd(b, activeId, Some(overId)) == b[i := b[i].(tasks := ArrayMove(b[i].tasks, from, to))]
  {
    var from := IndexOf(b[i].tasks, activeId);
    var to := IndexOf(b[i].tasks, overId);
    assert b[i].tasks[from].id != b[i].tasks[to].id;
    ReorderUpdates(b, i, from, to);
    assert DragEnd(b, activeId, Some(overId)) == Reorder(b, b[i].id, from, to);
  }

  /** Every other drop leaves the board alone. */
  lemma DragEndUnchanged(b: Board, activeId: string, over: Option<string>)
    requires DropDefined(b, activeId, over)
    requires || over.None?
             || ActiveColumn(b, activeId).None?
             || OverColumn(b, over.value).None?
             || b[ActiveColumn(b, activeId).value].id != b[OverColumn(b, over.value).value].id
             || IndexOf(b[ActiveColumn(b, activeId).value].tasks, activeId)
                == IndexOf(b[OverColumn(b, over.value).value].tasks, over.value)
    ensures DragEnd(b, activeId, over) == b
  {
  }

  /** Every defined drop keeps the board's tasks, and keeps a well-formed board well-formed. */
  lemma DragEndKeepsInvariant(b: Board, activeId: string, over: Option<string>)
    requires DropDefined(b, activeId, over)
    ensures multiset(Tasks(DragEnd(b, activeId, over))) == multiset(Tasks(b))
    ensures WellFormed(b) ==> WellFormed(DragEnd(b, activeId, over))
  {
    var r := DragEnd(b, activeId, over);
    if WellFormed(b) {
      SameShapeFour(b, r);
    }
    if && over.Some? && ActiveColumn(b, activeId).Some? && OverColumn(b, over.value).Some?
       && b[ActiveColumn(b, activeId).value].id == b[OverColumn(b, over.value).value].id
       && IndexOf(b[ActiveColumn(b, activeId).value].tasks, activeId)
          != IndexOf(b[OverColumn(b, over.value).value].tasks, over.value)
    {
      var a := ActiveColumn(b, activeId).value;
      var from := IndexOf(b[a].tasks, activeId);
      var to := IndexOf(b[OverColumn(b, over.value).value].tasks, over.value);
      assert ReorderInRange(b, b[a].id, from, to);
      assert r == Reorder(b, b[a].id, from, to);
      TasksPermuted(b, r);
      if IdsUnique(b) {
        ReorderKeepsIdsUnique(b, b[a].id, from, to);
      }
    } else {
      assert r == b;
    }
  }

  /** Every delete keeps a well-formed board well-formed. */
  lemma DeleteTaskKeepsInvariant(b: Board, id: string)
    requires WellFormed(b)
    ensures WellFormed(DeleteTask(b, id))
  {
    DeleteTaskKeepsIdsUnique(b, id);
  }

  /** Every create with a fresh id keeps a well-formed board well-formed. */
  lemma AppendTaskKeepsInvariant(b: Board, cid: ColumnId, t: Task)
    requires WellFormed(b) && !HasId(Tasks(b), t.id)
    ensures WellFormed(AppendTask(b, cid, t))
  {
    FourColumnsDistinct(b);
    AppendTaskFresh(b, cid, t);
  }
}
