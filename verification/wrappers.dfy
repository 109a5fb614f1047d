/** Failure-carrying wrappers shared by the whole model.
    - Option<T> stands for a C# reference that may be null.
    - Try<T> stands for a call that either returns a value or throws. */
module Wrappers {

  datatype Option<+T> = None | Some(value: T)

  datatype Try<+T> = Returned(value: T) | Thrown
}
