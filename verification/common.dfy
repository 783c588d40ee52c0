/** Small value types shared by every part of the model: optional values
    (a JSON field that may be missing, a Python None), results with an error
    side, and JavaScript/Python truthiness of optional strings. */
module Common {

  /** A value that may be absent: a missing JSON field, `undefined`, `null` or `None`. */
  datatype Option<+T> = None | Some(value: T) {

    /** The value, or `default` when absent (Python's `dict.get(key, default)`). */
    function GetOr(default: T): T {
      match this
      case Some(v) => v
      case None => default
    }
  }

  /** Either a value or an error. */
  datatype Result<+T, +E> = Ok(value: T) | Err(error: E)

  function Min(a: int, b: int): int {
    if a <= b then a else b
  }

  /** A string-valued field is truthy in JavaScript and Python exactly when it
      is present and non-empty. */
  predicate Truthy(o: Option<string>) {
    o.Some? && |o.value| > 0
  }

  /** A numeric field is truthy exactly when it is present and non-zero. */
  predicate TruthyNumber(o: Option<int>) {
    o.Some? && o.value != 0
  }

  /** `Some(s)` for a non-empty string, `None` for the empty one: how both
      front ends turn a text box into an optional request field. */
  function NonEmpty(s: string): (o: Option<string>)
    ensures o.Some? <==> |s| > 0
    ensures o.Some? ==> o.value == s
  {
    if |s| > 0 then Some(s) else None
  }
}
