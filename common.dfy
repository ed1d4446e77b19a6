/** Small shared vocabulary: optional values and the identifiers used as document keys. */
module Common {

  /** Document `_id`s, worker ids and account ids are strings. */
  type Id = string

  /** A value that may be absent: a missing document field, `None` in the source. */
  datatype Option<+T> = None | Some(value: T) {

    /** The value, or `default` when absent (Python's `d.get(key, default)`). */
    function GetOr(default: T): T {
      match this
      case Some(v) => v
      case None => default
    }
  }

  /**
   * The outcome of an operation that can raise: its value, or the exception Python
   * would raise, named by a short description.
   */
  datatype Result<+T> = Ok(value: T) | Raised(error: string)

  /** Python truthiness of an optional string: `None` and `""` are both falsy. */
  predicate Truthy(s: Option<string>) {
    s.Some? && s.value != ""
  }
}
