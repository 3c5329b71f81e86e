/** Shared vocabulary of the book-exchange server model: identifiers,
    optional request-body values and handler results. */
module Common {

  /** Database identifiers are opaque; natural numbers stand in for ObjectIds.
      New documents get the store's clock value, so a larger id means a
      more recently created document. */
  type UserId = nat
  type BookId = nat
  type RequestId = nat

  /** A value that may be missing, such as an optional field of a request body. */
  datatype Option<+T> = None | Some(value: T)

  /** The outcome of a route handler: a value, or the error it answers with. */
  datatype Result<+T, +E> = Ok(value: T) | Err(error: E) {

    predicate IsFailure() {
      Err?
    }

    function PropagateFailure<U>(): Result<U, E>
      requires Err?
    {
      Err(error)
    }

    function Extract(): T
      requires Ok?
    {
      value
    }
  }

  /** JavaScript truthiness of an optional string field: present and non-empty. */
  predicate Truthy(o: Option<string>) {
    o.Some? && o.value != ""
  }

  /** `given || fallback` for a field whose stored value is a string. */
  function OrElse(given: Option<string>, fallback: string): string {
    if Truthy(given) then given.value else fallback
  }

  /** `given || fallback` for a field whose stored value may itself be missing. */
  function OrKeep(given: Option<string>, fallback: Option<string>): Option<string> {
    if Truthy(given) then given else fallback
  }
}
