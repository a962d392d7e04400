/**
 * The tasks table as the service holds it, and the handlers that change it:
 * POST /tasks, PUT /tasks/{id}, DELETE /tasks/{id} and the startup seeding.
 * GET /tasks and GET /tasks/search read the table through TaskTable.ListTasks
 * and TaskTable.Search.
 *
 * Every change is stated against the table functions of TaskTable, whose
 * lemmas say what it does to lookups; Valid() is the primary key plus the
 * title invariant, kept by every handler.
 */
module TaskEndpoints {
  import opened Wrappers
  import opened TaskItems
  import opened TaskTable
  import Routes

  /** The outcomes of the writing handlers (201, 204, 404 and 401). */
  datatype Response =
    | Created(location: string, task: TaskRecord)
    | NoContent
    | NotFound
    | Unauthorized

  class TaskDb {
    /** The tasks table, in storage order. */
    var rows: Table

    ghost predicate Valid()
      reads this
    {
      && DistinctIds(rows)
      && forall k | 0 <= k < |rows| :: rows[k].id >= 1 && TitleInvariant(rows[k].title)
    }

    constructor ()
      ensures Valid() && rows == []
    {
      rows := [];
    }

    /**
     * Add followed by SaveChanges: the store gives the entity a fresh
     * positive id, writes that id back into the entity, and appends its row.
     */
    method Insert(t: TaskItem)
      requires Valid() && t.Valid()
      modifies this, t
      ensures Valid() && t.Valid()
      ensures t.id >= 1 && !HasId(old(rows), t.id)
      ensures t.Snapshot() == old(t.Snapshot()).(id := t.id)
      ensures rows == old(rows) + [t.Snapshot()]
    {
      t.id := NextId(rows);
      AppendFresh(rows, t.Snapshot());
      rows := rows + [t.Snapshot()];
    }

    /**
     * Startup seeding: an empty table receives the three sample tasks, each
     * built with the object initializer at time `now`; a table with rows is
     * left as it is, so seeding a second time adds nothing.
     */
    method SeedIfEmpty(now: int)
      requires Valid()
      modifies this
      ensures Valid()
      ensures old(rows) != [] ==> rows == old(rows)
      ensures old(rows) == [] ==> IsSeeded(rows, now)
    {
      if rows == [] {
        VisibleCharIsNotBlank(SeedTitles[0], 0);
        VisibleCharIsNotBlank(SeedTitles[1], 0);
        VisibleCharIsNotBlank(SeedTitles[2], 0);
        var first := NewTask(Some(SeedTitles[0]), SeedCompleted[0], now);
        var second := NewTask(Some(SeedTitles[1]), SeedCompleted[1], now);
        var third := NewTask(Some(SeedTitles[2]), SeedCompleted[2], now);
        Insert(first);
        Insert(second);
        Insert(third);
      }
    }

    /**
     * POST /tasks. Without authentication the request is refused before the
     * handler runs and nothing changes. Otherwise the deserialized body is
     * stored as it is under a fresh id, which is also written into the body,
     * and the answer is Created at "/tasks/" + id.
     */
    method Create(authenticated: bool, body: TaskItem) returns (r: Response)
      requires Valid() && body.Valid()
      modifies this, body
      ensures Valid()
      ensures !authenticated ==> r == Unauthorized && rows == old(rows) && unchanged(body)
      ensures authenticated ==>
                && r.Created?
                && r.task == body.Snapshot()
                && r.task == old(body.Snapshot()).(id := r.task.id)
                && r.task.id >= 1 && !HasId(old(rows), r.task.id)
                && rows == old(rows) + [r.task]
                && r.location == Routes.Location(r.task.id)
    {
      if !authenticated {
        return Unauthorized;
      }
      Insert(body);
      r := Created(Routes.Location(body.id), body.Snapshot());
    }

    /**
     * PUT /tasks/{id}. An unknown id answers NotFound and changes nothing.
     * Otherwise the stored task is loaded, its Title and IsCompleted are
     * assigned from the input through the setters, the row is written back,
     * and the answer is NoContent.
     */
    method Update(id: int, input: TaskItem) returns (r: Response)
      requires Valid()
      modifies this
      ensures Valid()
      ensures r == if HasId(old(rows), id) then NoContent else NotFound
      ensures rows == Updated(old(rows), id, input.title, input.isCompleted)
      ensures !HasId(old(rows), id) ==> rows == old(rows)
    {
      var found := IndexOf(rows, id);
      if found.None? {
        return NotFound;
      }
      var i := found.value;
      var task := new TaskItem.Materialize(rows[i]);
      task.SetTitle(input.title);
      task.SetIsCompleted(input.isCompleted);
      UpdateOnlyTarget(rows, id, input.title, input.isCompleted);
      rows := rows[i := task.Snapshot()];
      r := NoContent;
    }

    /**
     * DELETE /tasks/{id}. An unknown id answers NotFound and changes nothing;
     * otherwise the task's row is removed and the answer is NoContent.
     */
    method Delete(id: int) returns (r: Response)
      requires Valid()
      modifies this
      ensures Valid()
      ensures r == if HasId(old(rows), id) then NoContent else NotFound
      ensures rows == Deleted(old(rows), id)
      ensures !HasId(old(rows), id) ==> rows == old(rows)
    {
      var found := IndexOf(rows, id);
      if found.None? {
        return NotFound;
      }
      DeleteOnlyTarget(rows, id);
      rows := RemoveAt(rows, found.value);
      r := NoContent;
    }
  }

  /**
   * Two starts of the service against the same store, whatever it holds: the
   * first seeds the table if it is empty, and the second finds it non-empty
   * and adds nothing.
   */
  method SeedTwice(db: TaskDb, now: int, later: int) returns (first: Table, second: Table)
    requires db.Valid()
    modifies db
    ensures db.Valid()
    ensures old(db.rows) == [] ==> IsSeeded(first, now)
    ensures old(db.rows) != [] ==> first == old(db.rows)
    ensures second == first && db.rows == first
  {
    db.SeedIfEmpty(now);
    first := db.rows;
    db.SeedIfEmpty(later);
    second := db.rows;
  }
}
