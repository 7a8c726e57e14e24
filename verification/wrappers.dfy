/** Option and Result values: the Python code signals absence with None and
    failure with an exception; the model returns these values instead. */
module Wrappers {

  datatype Option<+T> = None | Some(value: T) {
    predicate IsFailure() { None? }

    function PropagateFailure<U>(): Option<U>
      requires None?
    {
      None
    }

    function Extract(): T
      requires Some?
    {
      value
    }
  }

  datatype Result<+T, +E> = Ok(value: T) | Err(error: E) {
    predicate IsFailure() { Err? }

    function PropagateFailure<U>(): Result<U, E>
      requires Err?
    {
      Err(error)
    }

    function Extract(): T
      requires Ok?
    {
      value
    }
  }

  /** The Python exceptions the modelled code can raise. */
  datatype Raised =
    | ValueError      // bad `float()` text, or unpacking the wrong number of items
    | TypeError       // indexing or iterating `None`
    | IndexError      // list index out of range
    | KeyError        // lookup of a missing dictionary key
    | UnboundLocalError  // reading a variable no branch assigned
    | AttributeError  // calling a method the value does not have
}
