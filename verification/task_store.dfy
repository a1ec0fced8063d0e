/**
 The `MANAGEMENT` table of the task service as an immutable value.

 A stored row is keyed by its `id` column (`INTEGER PRIMARY KEY AUTOINCREMENT`), so the
 row itself holds only the other four columns; a `Task` is what the handlers scan out of
 a row and send back, id included. `nextId` plays the role of the table's AUTOINCREMENT
 counter: every insert takes it and moves it on, and deletions never move it back, so an
 id once handed out is never handed out again.
 */
module TaskStore {

  /** The JSON shape of a task in request and response bodies. */
  datatype Task = Task(id: int, title: string, description: string, dueDate: string, status: string)

  /** The non-key columns of a row. */
  datatype Row = Row(title: string, description: string, dueDate: string, status: string)

  /** The largest rowid SQLite hands out; AUTOINCREMENT refuses to go past it. */
  const MaxRowId: int := 0x7FFF_FFFF_FFFF_FFFF

  datatype Store = Store(rows: map<int, Row>, nextId: int)

  /** The table as the service first opens it. */
  const EmptyStore: Store := Store(map[], 1)

  /** What a row scans out as: `SELECT id, title, description, due_date, status`. */
  function AsTask(id: int, row: Row): Task {
    Task(id, row.title, row.description, row.dueDate, row.status)
  }

  /** The columns a payload writes; its `id` is never written. */
  function RowOf(t: Task): Row {
    Row(t.title, t.description, t.dueDate, t.status)
  }

  /**
   The table invariant: the counter has not run past the largest rowid, and every stored
   id lies below it, so the counter is fresh.
   */
  predicate Valid(st: Store) {
    && 1 <= st.nextId <= MaxRowId + 1
    && forall id :: id in st.rows ==> 1 <= id < st.nextId
  }

  /** The ids of stored rows in the half-open range [from, to). */
  function KeysIn(rows: map<int, Row>, from: int, to: int): set<int> {
    set id | id in rows && from <= id < to
  }

  /**
   A table scan of the ids in [from, to): the stored rows, as tasks, in ascending id
   order, which is the order SQLite walks a rowid table in.
   */
  function ScanRows(rows: map<int, Row>, from: int, to: int): (tasks: seq<Task>)
    decreases to - from
    ensures |tasks| == |KeysIn(rows, from, to)|
    ensures forall t :: t in tasks <==> t.id in rows && from <= t.id < to && AsTask(t.id, rows[t.id]) == t
    ensures forall i, j :: 0 <= i < j < |tasks| ==> tasks[i].id < tasks[j].id
  {
    if from >= to then
      assert KeysIn(rows, from, to) == {};
      []
    else
      var rest := ScanRows(rows, from + 1, to);
      if from in rows then
        assert KeysIn(rows, from, to) == {from} + KeysIn(rows, from + 1, to);
        [AsTask(from, rows[from])] + rest
      else
        assert KeysIn(rows, from, to) == KeysIn(rows, from + 1, to);
        rest
  }

  /**
   `tasks` lists the rows of `rows` exactly: one entry per row, each entry the row under
   its own id, in ascending id order.
   */
  ghost predicate ListsExactly(tasks: seq<Task>, rows: map<int, Row>) {
    && |tasks| == |rows|
    && (forall t :: t in tasks <==> t.id in rows && AsTask(t.id, rows[t.id]) == t)
    && (forall i, j :: 0 <= i < j < |tasks| ==> tasks[i].id < tasks[j].id)
  }

  /** All rows of a table, as `SELECT ... FROM MANAGEMENT` returns them. */
  function AllTasks(st: Store): (tasks: seq<Task>)
    ensures Valid(st) ==> ListsExactly(tasks, st.rows)
  {
    ScanCoversValidStore(st);
    ScanRows(st.rows, 1, st.nextId)
  }

  lemma ScanCoversValidStore(st: Store)
    ensures Valid(st) ==> KeysIn(st.rows, 1, st.nextId) == st.rows.Keys
  {
  }
}
