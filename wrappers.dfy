/** Option and Result values, and the Python exceptions the core can raise. */
module Wrappers {

  datatype Option<T> = None | Some(value: T)

  /** The exception a Python operation of the core would raise. */
  datatype Error =
    | ValueError         // int() of a malformed literal, list.index/remove of a missing element
    | IndexError         // indexing an empty string or list
    | NotImplementedError // an extractor the selected pattern does not implement
    | RuntimeError       // the aarch64 pattern is asked for the size of a push
    | AttributeError     // an instruction line before the first function label
    | TypeError          // ordering a function without a file against one with a file

  datatype Result<T> = Ok(value: T) | Err(error: Error)
}
