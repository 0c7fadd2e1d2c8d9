/** The optional value and the result-or-error value the model computes with. */
module Options {

  datatype Option<+T> = None | Some(value: T)

  /** A value, or the error that stopped the computation of it. */
  datatype Result<+T, +E> = Success(value: T) | Failure(error: E) {
    predicate IsFailure() {
      Failure?
    }

    function PropagateFailure<U>(): Result<U, E>
      requires Failure?
    {
      Failure(error)
    }

    function Extract(): T
      requires Success?
    {
      value
    }
  }
}

/** What the host application tells an operator about the active object. */
module Host {

  /** The `type` of the active object; only the first two matter to the add-on. */
  datatype ObjectKind = Armature | Mesh | OtherObject
}
