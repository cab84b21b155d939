/** Return shapes shared by every store.

    The storage modules are synchronous read-modify-write functions over
    local storage. Here each one takes the stored state as an argument and
    hands back the state it leaves behind together with what it returns. */
module Outcomes {

  /** A value that may be missing: `null`/`undefined` in the original, or an
      optional record property (`grade?`, `updatedAt?`). */
  datatype Option<+T> = None | Some(value: T)

  /** The outcome of an operation that can throw: `Failure` carries the
      message of the `Error` the original throws. */
  datatype Result<+T> = Success(value: T) | Failure(message: string)

  /** The stored state an operation leaves behind, and what it returns. */
  datatype Step<+S, +T> = Step(next: S, out: T)

  /** What a spread `{ ...old, ...updates }` leaves in one property: the
      update's value when the update carries the property, the old value
      when it does not. */
  predicate Spread<T(==)>(update: Option<T>, prior: T, value: T)
  {
    if update.Some? then value == update.value else value == prior
  }

  /** The effect of a spread on one property. */
  function Pick<T(==)>(update: Option<T>, prior: T): (r: T)
    ensures Spread(update, prior, r)
  {
    match update
    case Some(v) => v
    case None => prior
  }
}
