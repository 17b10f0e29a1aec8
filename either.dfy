/** fp-ts `Either`: the result of a step that may fail. `Left` carries the error
    (what the source throws or reports), `Right` the value. It is
    failure-compatible, so `:-` propagates a `Left` the way `getUnsafe` throws it
    and the surrounding `taskEither.tryCatch` turns it back into a `Left`. */
module Either {

  datatype Either<+E, +A> = Left(left: E) | Right(right: A) {

    predicate IsFailure() {
      Left?
    }

    function PropagateFailure<B>(): Either<E, B>
      requires Left?
    {
      Left(left)
    }

    function Extract(): A
      requires Right?
    {
      right
    }
  }
}
