/**
 * The resource paths of tasks: the Location a create answers with,
 * `"/tasks/" + id`, and the `/tasks/{id}` route that update and delete
 * bind their integer id from.
 */
module Routes {
  import opened Wrappers

  const TasksPrefix: string := "/tasks/"

  predicate IsDigit(c: char)
  {
    '0' <= c <= '9'
  }

  predicate AllDigits(s: string)
  {
    forall i | 0 <= i < |s| :: IsDigit(s[i])
  }

  function DigitChar(d: nat): (c: char)
    requires d < 10
    ensures IsDigit(c) && c as int - '0' as int == d
  {
    ('0' as int + d) as char
  }

  /** The decimal rendering of a non-negative int, as Int32.ToString gives it. */
  function DecimalString(n: nat): (s: string)
    ensures |s| >= 1 && AllDigits(s)
    ensures |s| > 1 ==> s[0] != '0'
  {
    if n < 10 then [DigitChar(n)] else DecimalString(n / 10) + [DigitChar(n % 10)]
  }

  /** The value a string of decimal digits denotes, read most significant first. */
  function DigitsValue(s: string): nat
    requires AllDigits(s)
  {
    if s == [] then 0 else DigitsValue(s[..|s| - 1]) * 10 + (s[|s| - 1] as int - '0' as int)
  }

  /** Reading back the decimal rendering of a number gives that number. */
  lemma {:induction false} DecimalRoundTrip(n: nat)
    ensures DigitsValue(DecimalString(n)) == n
  {
    var s := DecimalString(n);
    if n >= 10 {
      DecimalRoundTrip(n / 10);
      assert s[..|s| - 1] == DecimalString(n / 10);
    }
  }

  /**
   * The Location of the task with the given id: the task route, whose id
   * segment reads back as that id.
   */
  function Location(id: nat): (loc: string)
    ensures |loc| > |TasksPrefix| && loc[..|TasksPrefix|] == TasksPrefix
    ensures AllDigits(loc[|TasksPrefix|..]) && DigitsValue(loc[|TasksPrefix|..]) == id
  {
    var loc := TasksPrefix + DecimalString(id);
    assert loc[|TasksPrefix|..] == DecimalString(id);
    DecimalRoundTrip(id);
    loc
  }

  /**
   * A strict form of binding the `{id}` segment of `/tasks/{id}`: the path
   * must be exactly the lower-case prefix followed by a non-empty run of
   * decimal digits.
   */
  function ParseTaskRoute(path: string): (r: Option<nat>)
    ensures r.Some? ==> |path| > |TasksPrefix| && path[..|TasksPrefix|] == TasksPrefix
    ensures r.Some? ==> AllDigits(path[|TasksPrefix|..]) && r.value == DigitsValue(path[|TasksPrefix|..])
  {
    if |path| > |TasksPrefix| && path[..|TasksPrefix|] == TasksPrefix && AllDigits(path[|TasksPrefix|..])
    then Some(DigitsValue(path[|TasksPrefix|..]))
    else None
  }

  /**
   * The Location of a created task is a route that binds back to its id, so
   * distinct ids give distinct locations.
   */
  lemma LocationRoundTrip(id: nat, other: nat)
    ensures ParseTaskRoute(Location(id)) == Some(id)
    ensures Location(id) == Location(other) ==> id == other
  {
  }
}
