/** The optional value used for PHP's nullable variables and for collaborator
    calls that may throw. */
module Wrappers {

  datatype Option<+T> = None | Some(value: T)
}
