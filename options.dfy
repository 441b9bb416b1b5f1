/** The failure-compatible Option type used throughout the model: `None`
    stands for a thrown exception or a rejected promise, `Some(v)` for a
    normal return. */
module Options {

  datatype Option<+T> = None | Some(value: T) {

    predicate IsFailure() {
      None?
    }

    function PropagateFailure<U>(): Option<U>
      requires None?
    {
      None
    }

    function Extract(): T
      requires Some?
    {
      value
    }
  }
}
