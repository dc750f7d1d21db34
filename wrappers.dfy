/** The usual optional-value datatype, standing for PHP's `null` / "no value". */
module Wrappers {

  datatype Option<+T> = None | Some(value: T)
}
