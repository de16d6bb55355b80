/** The optional value used for a pipeline's output (None when the command fails)
    and for a number parse that fails (JavaScript's NaN, Python's ValueError). */
module Wrappers {

  datatype Option<+T> = None | Some(value: T)

}
