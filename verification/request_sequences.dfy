/**
 Properties of the task service that span several requests: what a later request sees of
 an earlier one, and what holds of the table after any sequence of requests.
 */
module RequestSequences {
  import opened Wrappers
  import opened FullDate
  import opened TaskStore
  import opened Handlers

  /** A request together with the store failures it meets. */
  datatype Step = Step(request: Request, faults: Faults)

  /** The table after serving `steps` in order, each request atomically. */
  function Run(st: Store, steps: seq<Step>): Store
    decreases |steps|
  {
    if steps == [] then st else Run(Handle(st, steps[0].request, steps[0].faults).store, steps[1..])
  }

  /** Starting from the empty table, every reachable table satisfies the invariant. */
  lemma {:induction false} RunPreservesValid(st: Store, steps: seq<Step>)
    requires Valid(st)
    ensures Valid(Run(st, steps))
    decreases |steps|
  {
    if steps != [] {
      RunPreservesValid(Handle(st, steps[0].request, steps[0].faults).store, steps[1..]);
    }
  }

  /**
   AUTOINCREMENT: an id below the counter that holds no row (never issued, or issued and
   deleted) never holds a row again, whatever requests follow.
   */
  lemma {:induction false} RunNeverReissues(st: Store, steps: seq<Step>, id: int)
    requires id < st.nextId && id !in st.rows
    ensures id !in Run(st, steps).rows
    ensures Run(st, steps).nextId >= st.nextId
    decreases |steps|
  {
    if steps != [] {
      var next := Handle(st, steps[0].request, steps[0].faults).store;
      RunNeverReissues(next, steps[1..], id);
    }
  }

  /** A created task reads back exactly as the create response showed it. */
  lemma CreateThenRetrieve(st: Store, payload: Task)
    requires CreateTask(st, Bound(payload), NoFaults).response.status == StatusCreated
    ensures var created := CreateTask(st, Bound(payload), NoFaults);
            RetrieveTask(created.store, Some(st.nextId), NoFaults).response
              == Response(StatusOK, created.response.body)
  {
  }

  /** An updated task reads back with the payload's fields under its own id. */
  lemma UpdateThenRetrieve(st: Store, id: int, payload: Task)
    requires id in st.rows
    ensures var updated := UpdateTask(st, Some(id), Bound(payload), NoFaults);
            RetrieveTask(updated.store, Some(id), NoFaults).response
              == Response(StatusOK, TaskJson(payload.(id := id)))
  {
  }

  /** A deleted task is gone: reading it and deleting it again are both 404. */
  lemma DeleteThenRetrieve(st: Store, id: int)
    requires id in st.rows
    ensures var deleted := DeleteTask(st, Some(id), NoFaults);
            && deleted.response == Deleted
            && RetrieveTask(deleted.store, Some(id), NoFaults).response == TaskNotFound
            && DeleteTask(deleted.store, Some(id), NoFaults) == Transition(deleted.store, TaskNotFound)
  {
  }

  /** A create after a delete never reuses the deleted id. */
  lemma DeleteThenCreateFreshId(st: Store, id: int, payload: Task)
    requires Valid(st) && id in st.rows
    ensures var deleted := DeleteTask(st, Some(id), NoFaults);
            var created := CreateTask(deleted.store, Bound(payload), NoFaults);
            created.response.status == StatusCreated ==> created.response.body.task.id != id
  {
  }

  /** Create followed by delete of the new id restores every row but not the counter. */
  lemma CreateThenDelete(st: Store, payload: Task)
    requires Valid(st)
    requires CreateTask(st, Bound(payload), NoFaults).response.status == StatusCreated
    ensures var created := CreateTask(st, Bound(payload), NoFaults);
            var deleted := DeleteTask(created.store, Some(st.nextId), NoFaults);
            deleted.response == Deleted && deleted.store == Store(st.rows, st.nextId + 1)
  {
    var created := CreateTask(st, Bound(payload), NoFaults);
    assert created.store.rows - {st.nextId} == st.rows;
  }

  /**
   Update stores the due date as sent, while create refuses the same payload: the update
   route never runs the date parser.
   */
  lemma UpdateSkipsDateCheck(st: Store, id: int, payload: Task)
    requires id in st.rows
    requires !ValidFullDate(payload.dueDate)
    ensures CreateTask(st, Bound(payload), NoFaults) == Transition(st, InvalidDueDate)
    ensures var updated := UpdateTask(st, Some(id), Bound(payload), NoFaults);
            updated.response.status == StatusOK && updated.store.rows[id].dueDate == payload.dueDate
  {
  }

  /** The id inside a create payload has no effect on the outcome. */
  lemma CreateIgnoresClientId(st: Store, payload: Task, clientId: int, faults: Faults)
    ensures CreateTask(st, Bound(payload.(id := clientId)), faults) == CreateTask(st, Bound(payload), faults)
  {
  }

  /** The listing and single reads agree on every row. */
  lemma ListAgreesWithRetrieve(st: Store, id: int)
    requires Valid(st) && id in st.rows
    ensures ListAllTasks(st, NoFaults).response.body.TaskListJson?
    ensures var listed := ListAllTasks(st, NoFaults).response.body.tasks;
            var read := RetrieveTask(st, Some(id), NoFaults).response;
            read.status == StatusOK && read.body.task in listed
  {
    var listed := ListAllTasks(st, NoFaults).response.body.tasks;
    assert AsTask(id, st.rows[id]) in listed;
  }

  /** The table after creating each payload in turn with no store failure. */
  function CreateAll(st: Store, payloads: seq<Task>): Store
    decreases |payloads|
  {
    if payloads == [] then st
    else CreateAll(CreateTask(st, Bound(payloads[0]), NoFaults).store, payloads[1..])
  }

  /** One create with a valid due date and no failure, while ids remain. */
  lemma CreateSucceeds(st: Store, payload: Task)
    requires ValidFullDate(payload.dueDate) && st.nextId <= MaxRowId
    ensures CreateTask(st, Bound(payload), NoFaults).store
              == Store(st.rows[st.nextId := RowOf(payload)], st.nextId + 1)
  {
  }

  /** The valid due dates of a batch of payloads carry over to its tail. */
  lemma DatesOfTail(payloads: seq<Task>)
    requires payloads != []
    requires forall i :: 0 <= i < |payloads| ==> ValidFullDate(payloads[i].dueDate)
    ensures ValidFullDate(payloads[0].dueDate)
    ensures forall i :: 0 <= i < |payloads| - 1 ==> ValidFullDate(payloads[1..][i].dueDate)
  {
    forall i | 0 <= i < |payloads| - 1
      ensures ValidFullDate(payloads[1..][i].dueDate)
    {
      assert payloads[1..][i] == payloads[i + 1];
    }
  }

  /**
   Creating N tasks with valid due dates, while ids remain, adds N rows and moves the
   counter on by N.
   */
  lemma {:induction false} CreateAllAddsRows(st: Store, payloads: seq<Task>)
    requires Valid(st)
    requires forall i :: 0 <= i < |payloads| ==> ValidFullDate(payloads[i].dueDate)
    requires st.nextId + |payloads| <= MaxRowId + 1
    ensures Valid(CreateAll(st, payloads))
    ensures CreateAll(st, payloads).nextId == st.nextId + |payloads|
    ensures |CreateAll(st, payloads).rows| == |st.rows| + |payloads|
    decreases |payloads|
  {
    if payloads != [] {
      DatesOfTail(payloads);
      CreateSucceeds(st, payloads[0]);
      var next := Store(st.rows[st.nextId := RowOf(payloads[0])], st.nextId + 1);
      assert Valid(next) && |next.rows| == |st.rows| + 1;
      assert CreateAll(st, payloads) == CreateAll(next, payloads[1..]);
      CreateAllAddsRows(next, payloads[1..]);
    }
  }

  /** Those creates leave every earlier row as it was. */
  lemma {:induction false} CreateAllKeepsRows(st: Store, payloads: seq<Task>, id: int)
    requires forall i :: 0 <= i < |payloads| ==> ValidFullDate(payloads[i].dueDate)
    requires st.nextId + |payloads| <= MaxRowId + 1
    requires id in st.rows && id < st.nextId
    ensures id in CreateAll(st, payloads).rows
    ensures CreateAll(st, payloads).rows[id] == st.rows[id]
    decreases |payloads|
  {
    if payloads != [] {
      DatesOfTail(payloads);
      CreateSucceeds(st, payloads[0]);
      var next := Store(st.rows[st.nextId := RowOf(payloads[0])], st.nextId + 1);
      assert CreateAll(st, payloads) == CreateAll(next, payloads[1..]);
      CreateAllKeepsRows(next, payloads[1..], id);
    }
  }

  /** Each id those creates hand out holds the payload created under it, taken in order. */
  lemma {:induction false} CreateAllStoresPayloads(st: Store, payloads: seq<Task>, id: int)
    requires forall i :: 0 <= i < |payloads| ==> ValidFullDate(payloads[i].dueDate)
    requires st.nextId + |payloads| <= MaxRowId + 1
    requires st.nextId <= id < st.nextId + |payloads|
    ensures id in CreateAll(st, payloads).rows
    ensures CreateAll(st, payloads).rows[id] == RowOf(payloads[id - st.nextId])
    decreases |payloads|
  {
    DatesOfTail(payloads);
    CreateSucceeds(st, payloads[0]);
    var next := Store(st.rows[st.nextId := RowOf(payloads[0])], st.nextId + 1);
    var rest := payloads[1..];
    assert CreateAll(st, payloads) == CreateAll(next, rest);
    if id == st.nextId {
      CreateAllKeepsRows(next, rest, id);
    } else {
      assert payloads[id - st.nextId] == rest[id - next.nextId];
      CreateAllStoresPayloads(next, rest, id);
    }
  }

  /** After creating N tasks on the empty table, the listing holds exactly N entries. */
  lemma CreateThenListAll(payloads: seq<Task>)
    requires forall i :: 0 <= i < |payloads| ==> ValidFullDate(payloads[i].dueDate)
    requires |payloads| <= MaxRowId
    ensures var listed := ListAllTasks(CreateAll(EmptyStore, payloads), NoFaults).response;
            if payloads == [] then listed == NoTasks
            else listed.status == StatusOK && listed.body.TaskListJson? && |listed.body.tasks| == |payloads|
  {
    CreateAllAddsRows(EmptyStore, payloads);
  }

  /** The first task created on an empty table gets id 1 and is echoed back unchanged. */
  lemma FirstCreateGetsIdOne()
    ensures var payload := Task(0, "Buy milk", "2%", "2025-03-10", "open");
            CreateTask(EmptyStore, Bound(payload), NoFaults).response
              == Response(StatusCreated, TaskJson(Task(1, "Buy milk", "2%", "2025-03-10", "open")))
  {
    PlainDateAccepted();
  }
}
