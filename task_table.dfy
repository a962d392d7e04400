/**
 * The tasks table as a value: a sequence of rows in storage order, keyed by
 * id. The read-only handlers (list and search) are functions of it, and the
 * changes the writing handlers make are stated here as functions too, with
 * the lemmas that say what each change does and what it leaves alone.
 */
module TaskTable {
  import opened Wrappers
  import opened TaskItems

  type Table = seq<TaskRecord>

  predicate HasId(rows: Table, id: int)
  {
    exists i | 0 <= i < |rows| :: rows[i].id == id
  }

  /** The primary key: no two rows share an id. */
  predicate DistinctIds(rows: Table)
  {
    forall i, j | 0 <= i < j < |rows| :: rows[i].id != rows[j].id
  }

  /** The position of the row with the given id, if there is one. */
  function IndexOf(rows: Table, id: int): (r: Option<nat>)
    ensures r.None? <==> !HasId(rows, id)
    ensures r.Some? ==> r.value < |rows| && rows[r.value].id == id
  {
    if rows == [] then None
    else if rows[0].id == id then Some(0)
    else match IndexOf(rows[1..], id)
      case None => None
      case Some(k) => Some(k + 1)
  }

  /** Primary-key lookup (FindAsync): the row with the given id, or null. */
  function Find(rows: Table, id: int): (r: Option<TaskRecord>)
    ensures r.Some? <==> HasId(rows, id)
    ensures r.Some? ==> r.value in rows && r.value.id == id
  {
    match IndexOf(rows, id)
    case None => None
    case Some(i) => Some(rows[i])
  }

  /** Under the primary key, lookup finds a row exactly when it holds that id. */
  lemma FindExactly(rows: Table, id: int, t: TaskRecord)
    requires DistinctIds(rows)
    ensures Find(rows, id) == Some(t) <==> t in rows && t.id == id
  {
  }

  /** The largest id in the table, or 0 when there is none above 0. */
  function MaxId(rows: Table): (r: nat)
    ensures forall i | 0 <= i < |rows| :: rows[i].id <= r
  {
    if rows == [] then 0
    else
      var m := MaxId(rows[1..]);
      if rows[0].id > m then rows[0].id else m
  }

  /** One id the store may hand out: positive and not yet in the table. */
  function NextId(rows: Table): (r: int)
    ensures r >= 1 && !HasId(rows, r)
  {
    MaxId(rows) + 1
  }

  // ---- Reading: GET /tasks and GET /tasks/search ------------------------

  /** `q` occurs in `s` as a contiguous substring (ordinal comparison). */
  predicate ContainsSubstring(s: string, q: string)
  {
    exists i | 0 <= i <= |s| - |q| :: q <= s[i..]
  }

  /** The search filter `t.Title.Contains(q)`; a null title matches nothing. */
  predicate TitleMatches(t: TaskRecord, q: string)
  {
    t.title.Some? && ContainsSubstring(t.title.value, q)
  }

  /** `a` is `b` with some elements left out, the rest in the same order. */
  predicate IsSubsequence(a: Table, b: Table)
  {
    if a == [] then true
    else if b == [] then false
    else (a[0] == b[0] && IsSubsequence(a[1..], b[1..])) || IsSubsequence(a, b[1..])
  }

  lemma {:induction false} SubsequenceOfItself(a: Table)
    ensures IsSubsequence(a, a)
  {
    if a != [] {
      SubsequenceOfItself(a[1..]);
    }
  }

  /** The rows whose title contains `q`, in table order. */
  function Filter(rows: Table, q: string): (r: Table)
    ensures forall t :: t in r <==> t in rows && TitleMatches(t, q)
    ensures IsSubsequence(r, rows)
  {
    if rows == [] then []
    else
      var rest := Filter(rows[1..], q);
      if TitleMatches(rows[0], q) then
        assert ([rows[0]] + rest)[1..] == rest;
        [rows[0]] + rest
      else
        assert rest != [] ==> rest[0] in rest;
        rest
  }

  /** GET /tasks: every row, in storage order. */
  function ListTasks(rows: Table): (r: Table)
    ensures |r| == |rows| && IsSubsequence(r, rows)
    ensures forall t :: t in r <==> t in rows
  {
    SubsequenceOfItself(rows);
    rows
  }

  /**
   * GET /tasks/search?q=: a null or blank query filters nothing; otherwise
   * exactly the rows whose title contains the query, in table order.
   */
  function Search(rows: Table, q: Option<string>): (r: Table)
    ensures IsSubsequence(r, rows)
    ensures !IsNullOrWhiteSpace(q) ==> forall t :: t in r <==> t in rows && TitleMatches(t, q.value)
  {
    if IsNullOrWhiteSpace(q) then
      SubsequenceOfItself(rows);
      ListTasks(rows)
    else Filter(rows, q.value)
  }

  /** A null or blank query returns the same rows as listing. */
  lemma SearchBlankIsList(rows: Table, q: Option<string>)
    requires IsNullOrWhiteSpace(q)
    ensures Search(rows, q) == ListTasks(rows)
  {
  }

  // ---- Writing: the row changes behind POST, PUT and DELETE -------------

  /** The found task after `Title = input.Title; IsCompleted = input.IsCompleted`. */
  function UpdatedRow(row: TaskRecord, title: Option<string>, done: bool): TaskRecord
  {
    row.(title := Some(NormalizeTitle(title)), isCompleted := done)
  }

  /** The table after PUT /tasks/{id}: the row with that id updated, if any. */
  function Updated(rows: Table, id: int, title: Option<string>, done: bool): Table
  {
    match IndexOf(rows, id)
    case None => rows
    case Some(i) => rows[i := UpdatedRow(rows[i], title, done)]
  }

  /** The table without its row at position i. */
  function RemoveAt(rows: Table, i: nat): Table
    requires i < |rows|
  {
    rows[..i] + rows[i + 1..]
  }

  /** The table after DELETE /tasks/{id}: the row with that id removed, if any. */
  function Deleted(rows: Table, id: int): Table
  {
    match IndexOf(rows, id)
    case None => rows
    case Some(i) => RemoveAt(rows, i)
  }

  lemma {:induction false} RemoveAtIsSubsequence(rows: Table, i: nat)
    requires i < |rows|
    ensures IsSubsequence(RemoveAt(rows, i), rows)
  {
    var a := RemoveAt(rows, i);
    if i == 0 {
      assert a == rows[1..];
      SubsequenceOfItself(a);
    } else {
      assert a[0] == rows[0];
      assert a[1..] == RemoveAt(rows[1..], i - 1);
      RemoveAtIsSubsequence(rows[1..], i - 1);
    }
  }

  /**
   * Two tables with the primary key that hold the same rows under an id
   * answer a lookup of that id alike.
   */
  lemma FindSame(a: Table, b: Table, id: int)
    requires DistinctIds(a) && DistinctIds(b)
    requires forall k | 0 <= k < |a| :: a[k].id == id ==> a[k] in b
    requires forall k | 0 <= k < |b| :: b[k].id == id ==> b[k] in a
    ensures Find(a, id) == Find(b, id)
  {
  }

  /**
   * Create appends the new row: the table grows by one, the id is now found
   * at that row, and every other id is looked up as before.
   */
  lemma AppendFresh(rows: Table, row: TaskRecord)
    requires DistinctIds(rows) && !HasId(rows, row.id)
    ensures DistinctIds(rows + [row]) && |rows + [row]| == |rows| + 1
    ensures Find(rows + [row], row.id) == Some(row)
    ensures forall id :: id != row.id ==> Find(rows + [row], id) == Find(rows, id)
  {
    var after := rows + [row];
    assert DistinctIds(after);
    FindExactly(after, row.id, row);
    forall id | id != row.id
      ensures Find(after, id) == Find(rows, id)
    {
      FindSame(after, rows, id);
    }
  }

  /** Rows that carry the same ids position by position are searched alike. */
  lemma {:induction false} SameIdsSameIndex(a: Table, b: Table, id: int)
    requires |a| == |b| && forall k | 0 <= k < |a| :: a[k].id == b[k].id
    ensures IndexOf(a, id) == IndexOf(b, id)
  {
    if a != [] && a[0].id != id {
      SameIdsSameIndex(a[1..], b[1..], id);
    }
  }

  /**
   * Update on a found row: that id now finds the task with the normalised
   * input title and the input flag, still with its id and creation time;
   * every other id is looked up as before; the table keeps its length and
   * its primary key.
   */
  lemma UpdateOnlyTarget(rows: Table, id: int, title: Option<string>, done: bool)
    requires HasId(rows, id)
    ensures |Updated(rows, id, title, done)| == |rows|
    ensures DistinctIds(rows) ==> DistinctIds(Updated(rows, id, title, done))
    ensures Find(Updated(rows, id, title, done), id).Some?
    ensures Find(Updated(rows, id, title, done), id).value.title == Some(NormalizeTitle(title))
    ensures Find(Updated(rows, id, title, done), id).value.isCompleted == done
    ensures Find(Updated(rows, id, title, done), id).value.id == id
    ensures Find(Updated(rows, id, title, done), id).value.createdAt == Find(rows, id).value.createdAt
    ensures forall other :: other != id ==> Find(Updated(rows, id, title, done), other) == Find(rows, other)
  {
    var after := Updated(rows, id, title, done);
    forall other
      ensures IndexOf(after, other) == IndexOf(rows, other)
    {
      SameIdsSameIndex(after, rows, other);
    }
  }

  /** Removing a row shifts the later rows down by one. */
  lemma RemoveAtShifts(rows: Table, i: nat)
    requires i < |rows|
    ensures |RemoveAt(rows, i)| == |rows| - 1
    ensures forall k | 0 <= k < |rows| - 1 :: RemoveAt(rows, i)[k] == rows[if k < i then k else k + 1]
  {
  }

  /** Removing the row at i keeps every row that holds another id. */
  lemma RemoveAtKeepsOthers(rows: Table, i: nat, other: int)
    requires i < |rows| && DistinctIds(rows) && other != rows[i].id
    ensures DistinctIds(RemoveAt(rows, i)) && !HasId(RemoveAt(rows, i), rows[i].id)
    ensures Find(RemoveAt(rows, i), other) == Find(rows, other)
  {
    var after := RemoveAt(rows, i);
    RemoveAtShifts(rows, i);
    forall k | 0 <= k < |rows| && rows[k].id == other
      ensures rows[k] in after
    {
      assert rows[k] == after[if k < i then k else k - 1];
    }
    FindSame(after, rows, other);
  }

  /**
   * Delete on a found row: the id is no longer found, the table is one row
   * shorter, the remaining rows keep their relative order, and every other
   * id is looked up as before.
   */
  lemma DeleteOnlyTarget(rows: Table, id: int)
    requires DistinctIds(rows) && HasId(rows, id)
    ensures DistinctIds(Deleted(rows, id))
    ensures |Deleted(rows, id)| == |rows| - 1
    ensures IsSubsequence(Deleted(rows, id), rows)
    ensures Find(Deleted(rows, id), id) == None
    ensures forall other :: other != id ==> Find(Deleted(rows, id), other) == Find(rows, other)
  {
    var i := IndexOf(rows, id).value;
    RemoveAtShifts(rows, i);
    RemoveAtIsSubsequence(rows, i);
    forall other | other != id
      ensures Find(RemoveAt(rows, i), other) == Find(rows, other)
    {
      RemoveAtKeepsOthers(rows, i, other);
    }
  }

  // ---- Seeding ----------------------------------------------------------

  const SeedTitles: seq<string> := ["Install Docker", "Learn C# Dependency Injection", "Build a Portfolio API"]
  const SeedCompleted: seq<bool> := [true, true, false]

  /** The table as the startup seeding leaves an empty one. */
  ghost predicate IsSeeded(rows: Table, now: int)
  {
    && |rows| == 3
    && forall k | 0 <= k < 3 ::
         && rows[k].title == Some(SeedTitles[k])
         && rows[k].isCompleted == SeedCompleted[k]
         && rows[k].createdAt == now
  }
}
