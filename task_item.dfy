/**
 * The task entity: a record with an id, a title that is normalised every
 * time it is assigned, a completion flag and a creation time.
 *
 * Times are modelled as integers (ticks of the UTC clock); the clock itself
 * is a parameter of whoever constructs a task.
 */
module TaskItems {
  import opened Wrappers

  /** The title stored in place of a null, empty or all-whitespace one. */
  const DefaultTitle: string := "Untitled Task"

  /**
   * The characters .NET's Char.IsWhiteSpace accepts: the controls U+0009 to
   * U+000D and U+0085, and the Unicode space, line and paragraph separators.
   */
  predicate IsWhiteSpace(c: char)
  {
    || ('\t' <= c <= '\r')
    || c == ' '
    || c == '\U{0085}'
    || c == '\U{00A0}'
    || c == '\U{1680}'
    || ('\U{2000}' <= c <= '\U{200A}')
    || c == '\U{2028}'
    || c == '\U{2029}'
    || c == '\U{202F}'
    || c == '\U{205F}'
    || c == '\U{3000}'
  }

  /** Every character is white space (the empty string included). */
  predicate IsBlank(s: string)
  {
    forall i | 0 <= i < |s| :: IsWhiteSpace(s[i])
  }

  /** string.IsNullOrWhiteSpace. */
  predicate IsNullOrWhiteSpace(value: Option<string>)
  {
    value.None? || IsBlank(value.value)
  }

  /** What a title field may hold: never assigned, or a non-blank string. */
  predicate TitleInvariant(title: Option<string>)
  {
    title.Some? ==> !IsBlank(title.value)
  }

  lemma VisibleCharIsNotBlank(s: string, i: nat)
    requires i < |s| && !IsWhiteSpace(s[i])
    ensures !IsBlank(s)
  {
  }

  /**
   * The expression of the Title setter: a blank value becomes DefaultTitle,
   * any other value is kept. The result is never blank, and the input is
   * kept exactly when it is not blank.
   */
  function NormalizeTitle(value: Option<string>): (r: string)
    ensures !IsBlank(r)
    ensures value == Some(r) <==> !IsNullOrWhiteSpace(value)
    ensures value != Some(r) ==> r == DefaultTitle
  {
    VisibleCharIsNotBlank(DefaultTitle, 0);
    if IsNullOrWhiteSpace(value) then DefaultTitle else value.value
  }

  /**
   * Normalising an already normalised title changes nothing, and a title is
   * a fixed point of normalisation exactly when it is not blank.
   */
  lemma NormalizeIdempotent(value: Option<string>, s: string)
    ensures NormalizeTitle(Some(NormalizeTitle(value))) == NormalizeTitle(value)
    ensures NormalizeTitle(Some(s)) == s <==> !IsBlank(s)
  {
  }

  /** The stored form of a task: one row of the tasks table. */
  datatype TaskRecord = TaskRecord(id: int, title: Option<string>, isCompleted: bool, createdAt: int)

  /** A task object as the handlers and the deserializer see it. */
  class TaskItem {
    var id: int
    var title: Option<string>
    var isCompleted: bool
    var createdAt: int

    ghost predicate Valid()
      reads this
    {
      TitleInvariant(title)
    }

    function Snapshot(): TaskRecord
      reads this
    {
      TaskRecord(id, title, isCompleted, createdAt)
    }

    /**
     * `new TaskItem()`: the id is the C# default 0, the title has never been
     * assigned (null), the task is not completed and is stamped with the
     * clock's value at construction.
     */
    constructor (now: int)
      ensures Valid()
      ensures Snapshot() == TaskRecord(0, None, false, now)
    {
      id := 0;
      title := None;
      isCompleted := false;
      createdAt := now;
    }

    /**
     * An entity loaded from the store: its fields are filled from the row
     * directly (the title's backing field, not its setter).
     */
    constructor Materialize(row: TaskRecord)
      requires TitleInvariant(row.title)
      ensures Valid()
      ensures Snapshot() == row
    {
      id := row.id;
      title := row.title;
      isCompleted := row.isCompleted;
      createdAt := row.createdAt;
    }

    /**
     * The Title setter. A null or blank value stores DefaultTitle, any other
     * value is stored unchanged; no other field changes.
     */
    method SetTitle(value: Option<string>)
      modifies this`title
      ensures Valid() && title.Some? && !IsBlank(title.value)
      ensures IsNullOrWhiteSpace(value) ==> title == Some(DefaultTitle)
      ensures !IsNullOrWhiteSpace(value) ==> title == value
      ensures id == old(id) && isCompleted == old(isCompleted) && createdAt == old(createdAt)
    {
      title := Some(NormalizeTitle(value));
    }

    /** The IsCompleted setter; no other field changes. */
    method SetIsCompleted(value: bool)
      modifies this`isCompleted
      ensures isCompleted == value
      ensures id == old(id) && title == old(title) && createdAt == old(createdAt)
    {
      isCompleted := value;
    }
  }

  /**
   * The object initializer `new TaskItem { Title = title, IsCompleted = done }`:
   * construction at time `now`, then the two setters in that order.
   */
  method NewTask(title: Option<string>, done: bool, now: int) returns (t: TaskItem)
    ensures fresh(t) && t.Valid()
    ensures t.Snapshot() == TaskRecord(0, Some(NormalizeTitle(title)), done, now)
  {
    t := new TaskItem(now);
    t.SetTitle(title);
    t.SetIsCompleted(done);
  }
}
