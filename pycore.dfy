/** The Python runtime outcomes shared by every modelled function: a value,
    or the exception the Python code would raise. */
module PyCore {

  /** The exceptions the modelled code can raise. */
  datatype Exception =
    | JSONDecodeError   // json.loads given text that is not JSON
    | AttributeError    // `.get` on a value that is not a dict
    | TypeError         // len(), iteration, `in` or `[...]` on a value of the wrong type
    | KeyError          // `d[key]` with a missing key
    | IndexError        // `s[i]` with an index out of range
    | ValueError        // strptime, fromisoformat or date() rejecting their input
    | OverflowError     // date arithmetic leaving the years 1..9999

  datatype Option<+T> = None | Some(value: T)

  /** A value, or the exception raised instead; usable with `:-`. */
  datatype Outcome<+T> = Ok(value: T) | Raised(exc: Exception) {
    predicate IsFailure() {
      Raised?
    }

    function PropagateFailure<U>(): Outcome<U>
      requires Raised?
    {
      Raised(exc)
    }

    function Extract(): T
      requires Ok?
    {
      value
    }
  }
}
