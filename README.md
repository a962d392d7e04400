# Task API: a verified model of the task record and its handlers

The service keeps a single table of tasks. Each task has an integer id, a
title, a completion flag and a creation time. It answers five HTTP
endpoints:

- GET /tasks and GET /tasks/search?q= read the table.
- POST /tasks creates a task. It requires a bearer token.
- PUT /tasks/{id} updates a task.
- DELETE /tasks/{id} deletes a task.

At startup an empty table is seeded with three sample tasks.

This project models that core in Dafny.

- `wrappers.dfy` (module `Wrappers`): `Option`, which stands for C#'s `null`.
- `task_item.dfy` (module `TaskItems`): the `TaskItem` entity.
  - It is a class whose `SetTitle` setter sends every assignment through the
    pure `NormalizeTitle`. That function turns a null, empty or all-whitespace
    title into `"Untitled Task"`, using .NET's `Char.IsWhiteSpace` set written
    out.
  - A title that has never been assigned stays `None`, the C# default `null`.
  - `TaskRecord` is the stored form of a task (one row).
- `task_table.dfy` (module `TaskTable`): the table as a value.
  - The table is a sequence of rows in storage order, and ids are distinct
    (the primary key).
  - The read-only handlers are functions of it: `ListTasks` and `Search`.
  - Primary-key lookup (`FindAsync`) is `IndexOf`/`Find`.
  - Each row change made by a writing handler is stated as a function, with
    lemmas saying what the change does to lookups and what it leaves alone.
- `routes.dfy` (module `Routes`): the `Location` of a created task,
  `"/tasks/" + id`. Its id is rendered in decimal, and a lemma shows that the
  `/tasks/{id}` route binds that location back to the same id.
- `task_endpoints.dfy` (module `TaskEndpoints`): the class `TaskDb`, whose
  `rows` field the writing handlers change in place.
  - `Create` models POST, `Update` models PUT and `Delete` models DELETE.
    `SeedIfEmpty` models the startup seeding.
  - Each handler states its whole new table through the `TaskTable` functions
    and keeps `Valid()`: distinct positive ids, and every title either
    unassigned or not blank.
  - Update loads the stored row into a `TaskItem` (`Materialize`), calls
    `SetTitle` and `SetIsCompleted` on it, and writes the row back, as
    `FindAsync` followed by `SaveChangesAsync` does.

Authentication is a boolean `authenticated` argument to `Create`. Without it,
nothing changes and the answer is `Unauthorized`. Only create is protected in
the source; update and delete run without a token, and the model keeps that
asymmetry. The clock is a parameter `now`. The store picks a new id, and the
contracts only promise that it is positive and not already in the table.

Two points where the program's own sources and its code need reading
together:

- The search filter `t.Title.Contains(q)` (TaskApi/Program.cs:103) is part of
  a database query, so the store's collation decides how titles match. The
  comment at TaskApi/Program.cs:102 expects case-insensitive matching and
  names SQLite, but the store configured at TaskApi/Program.cs:14 is SQL
  Server. Its default collation is case-insensitive too, so the comment most
  likely holds. `Search` models an ordinal (case-sensitive) substring match
  instead; "## Left out" records the difference.
- The test named for tasks being uncompleted by default
  (TaskApi.Tests/TaskTests.cs:8) checks a freshly constructed object only.
  The POST handler stores the deserialized body as it arrived, so
  `IsCompleted` and `CreatedAt` keep whatever the client sent. They fall back
  to the defaults only when the body leaves them out.

## Model

| member | source | states |
|---|---|---|
| `TaskItems.NormalizeTitle` | TaskApi/TaskItem.cs:8 | the stored title is never blank; the input is stored unchanged exactly when it is not null, empty or whitespace-only, and otherwise the result is "Untitled Task" |
| `TaskItems.NormalizeIdempotent` | TaskApi/TaskItem.cs:8 | normalising a normalised title changes nothing; a string is left unchanged by normalisation exactly when it is not blank |
| `TaskItems.TaskItem.constructor` | TaskApi/TaskItem.cs:3-12 | a new task has id 0, a never-assigned (null) title, IsCompleted false and CreatedAt equal to the clock value at construction |
| `TaskItems.TaskItem.Materialize` | TaskApi/Program.cs:126 | an entity loaded from the store holds exactly the stored row's fields |
| `TaskItems.TaskItem.SetTitle` | TaskApi/TaskItem.cs:6-9 | after the assignment the title is present and not blank; a null or blank value stores "Untitled Task", any other value is stored unchanged; Id, IsCompleted and CreatedAt are unchanged |
| `TaskItems.TaskItem.SetIsCompleted` | TaskApi/TaskItem.cs:11 | stores the flag; Id, Title and CreatedAt are unchanged |
| `TaskItems.NewTask` | TaskApi/Program.cs:64-66 | the object initializer `new TaskItem { Title = t, IsCompleted = b }` (also used with Title alone at TaskApi.Tests/TaskTests.cs:11-16) yields a fresh task with id 0, the normalised title, the given flag and CreatedAt equal to the clock value |
| `TaskTable.IndexOf` | TaskApi/Program.cs:126-129 | finds a position exactly when some row holds the id, and the row found there holds it |
| `TaskTable.Find` | TaskApi/Program.cs:126 | primary-key lookup returns a row exactly when some row holds the id, and the row returned is in the table and holds that id |
| `TaskTable.FindExactly` | TaskApi/Program.cs:144 | under distinct ids, lookup returns a row exactly when that row is in the table with the requested id |
| `TaskTable.NextId` | TaskApi/Program.cs:117-118 | the id handed out by the store is positive and not held by any row |
| `TaskTable.ListTasks` | TaskApi/Program.cs:93 | GET /tasks returns every row: the same rows as the table, as many of them, in table order |
| `TaskTable.Filter` | TaskApi/Program.cs:103 | the result holds exactly the rows whose title contains the query, and is a subsequence of the table (table order kept) |
| `TaskTable.Search` | TaskApi/Program.cs:96-107 | the result is always a subsequence of the table; with a non-blank query it holds exactly the rows whose title contains it |
| `TaskTable.SearchBlankIsList` | TaskApi/Program.cs:93-106 | a null or whitespace-only query returns the same rows as GET /tasks, the whole table |
| `TaskTable.AppendFresh` | TaskApi/Program.cs:117-118 | appending a row under a fresh id keeps ids distinct, grows the table by one, makes that id find the new row and leaves every other lookup as it was |
| `TaskTable.UpdateOnlyTarget` | TaskApi/Program.cs:132-133 | after update the id finds the task with the normalised input title and the input flag, still with its id and CreatedAt; every other id finds what it found before; ids stay distinct |
| `TaskTable.DeleteOnlyTarget` | TaskApi/Program.cs:144-146 | after delete the id is no longer found, the table is one row shorter, the remaining rows keep their relative order, every other id finds what it found before, and ids stay distinct |
| `Routes.DecimalString` | TaskApi/Program.cs:119 | the id in the location is rendered as a non-empty run of decimal digits without a leading zero |
| `Routes.DecimalRoundTrip` | TaskApi/Program.cs:119 | reading the rendered digits back gives the id |
| `Routes.Location` | TaskApi/Program.cs:119 | the Location of a created task is "/tasks/" followed by decimal digits that read back as the task's id |
| `Routes.ParseTaskRoute` | TaskApi/Program.cs:123 | a strict form of the `/tasks/{id}` route, stricter than the framework's matching: it binds only paths that begin with the lower-case "/tasks/" followed by a non-empty run of digits, and the id it binds is the number those digits denote |
| `Routes.LocationRoundTrip` | TaskApi/Program.cs:119-123 | the Location of a created task binds back to its id through the `/tasks/{id}` route, so distinct ids give distinct locations |
| `TaskEndpoints.TaskDb.constructor` | TaskApi/Program.cs:57 | a freshly migrated store holds no tasks and satisfies the table invariant |
| `TaskEndpoints.TaskDb.Insert` | TaskApi/Program.cs:117-118 | Add plus SaveChanges: the entity gets a positive id not in the table, written back into it, its other fields unchanged, and its row is appended |
| `TaskEndpoints.TaskDb.SeedIfEmpty` | TaskApi/Program.cs:60-71 | an empty table becomes exactly "Install Docker" (completed), "Learn C# Dependency Injection" (completed), "Build a Portfolio API" (not completed), stamped now; a non-empty table is unchanged |
| `TaskEndpoints.TaskDb.Create` | TaskApi/Program.cs:109-120 | unauthenticated: Unauthorized, table and body unchanged; authenticated: the body is appended under an id not previously in the table, and the answer is Created with that task and location "/tasks/" + id |
| `TaskEndpoints.TaskDb.Update` | TaskApi/Program.cs:123-140 | unknown id: NotFound, table unchanged; otherwise NoContent and only that row changes, to the normalised input title and the input flag |
| `TaskEndpoints.TaskDb.Delete` | TaskApi/Program.cs:142-151 | unknown id: NotFound, table unchanged; otherwise NoContent and exactly that row is removed |
| `TaskEndpoints.SeedTwice` | TaskApi/Program.cs:60-71 | two starts against any valid store: an empty one ends with the three seeded rows, a non-empty one is left as it was, and the second seeding adds nothing |

## Left out

- Bearer-token validation (issuer, audience, lifetime, signing key) belongs to
  the JWT library (TaskApi/Program.cs:22-36, 83-84). It is reduced to the
  `authenticated` argument of `Create`.
- The `userId` claim lookup in the POST handler has no effect on stored state
  (TaskApi/Program.cs:112).
- EF Core, SQL Server, `MigrateAsync` and `SaveChangesAsync` are replaced by
  the in-memory table. Failures the store might raise are not modelled; nor
  is the exception handler that turns them into a 500 response, which is
  logging plus a constant `ProblemDetails` body (TaskApi/GlobalExceptionHandler.cs).
- Dependency injection, the middleware pipeline, OpenAPI mapping, `app.Run`,
  console output and the startup try/catch are framework wiring and I/O.
- Async/await and concurrent requests are not modelled. That includes the
  race between two first starts that both find the table empty and seed it.
- `TaskTable.Search`: it matches ordinally, so it is case-sensitive where the
  default SQL Server collation of the configured store is not. In the program
  "DOCK" finds "Install Docker"; in the model it finds nothing. Collations are
  not modelled.
- Strings are sequences of Unicode scalar values, not UTF-16 code units, so
  surrogate pairs are not modelled.
- `TaskItems.TaskItem.constructor`: time is an integer parameter `now`, not
  `DateTime.UtcNow`.
- `TaskEndpoints.TaskDb.SeedIfEmpty`: the source reads the clock separately
  for each of the three tasks. The model stamps all three with the one `now`.
- `TaskEndpoints.TaskDb.Create`: a body whose JSON omits `title` never runs
  the setter, so it is stored with a null (`None`) title. Whether the database
  accepts a null title depends on the schema, which is not part of this model.
- `TaskEndpoints.TaskDb.Create`: the model always lets the store pick the id.
  When a client sends a non-zero id, the model replaces it and answers
  Created. In the program, SaveChangesAsync tries to insert that explicit
  value into the identity column, the database refuses it, and the request
  ends in a 500 response.
- `TaskTable.NextId`: ids are unbounded integers, and the identity column's
  exact numbering is not modelled. The only promise is a positive id that is
  not already in the table; 32-bit overflow is not modelled.
- `TaskTable.ListTasks`: GET /tasks has no ORDER BY, so the order comes from
  the store. The model uses insertion order.
- `Routes.ParseTaskRoute`: it matches the literal "/tasks/" exactly and
  accepts only a plain run of digits. The framework matches literal segments
  case-insensitively, on the percent-decoded path, so it also binds
  "/TASKS/7" and "/tasks/%37". Its int binding also accepts a sign and
  rejects values outside the 32-bit range. None of this is modelled.
