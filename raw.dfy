/**
 * The raw issue record as the tracker's client library decodes it: the
 * fields the report pipeline reads, and the open-ended map of custom fields
 * whose values have whatever shape the tracker's JSON gave them.
 */
module Raw {
  import opened Wrappers

  /** A decoded JSON value held in the custom-field map. */
  datatype Value =
    | Null                                               // JSON null: Go's nil interface value
    | Str(s: string)                                     // a JSON string
    | Map(entries: map<string, Value>, printed: string)  // a JSON object; `printed` is how fmt renders it
    | Other(printed: string)                             // a number, boolean or array, with its fmt rendering

  /**
   * `priority` is None when the record has no priority object; `comments` is
   * None when it has no comment container (a nil pointer in Go), and
   * otherwise holds the comment bodies in the tracker's order.
   */
  datatype RawIssue = RawIssue(
    key: string,
    summary: string,
    status: string,
    priority: Option<string>,
    unknowns: map<string, Value>,
    comments: Option<seq<string>>)

  /** Indexing a Go map: a missing key yields the nil interface. */
  function Field(issue: RawIssue, id: string): (v: Value)
    ensures id !in issue.unknowns ==> v == Null
    ensures id in issue.unknowns ==> v == issue.unknowns[id]
  {
    if id in issue.unknowns then issue.unknowns[id] else Null
  }

  /**
   * The shape the colour field must have for the unchecked `.(string)` type
   * assertion on its "value" entry not to panic: when the field is an
   * object at all, its "value" entry is present and is a string.
   */
  predicate HasStringValue(v: Value) {
    v.Map? ==> "value" in v.entries && v.entries["value"].Str?
  }
}
