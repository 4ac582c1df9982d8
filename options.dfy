/** The optional value that stands for a Python call that either produces a
    result or fails (an exception caught by the caller, a `False` return). */
module Options {

  datatype Option<+T> = None | Some(value: T)
}
