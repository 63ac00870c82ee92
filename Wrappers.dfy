/** The optional value that stands for JavaScript's `null` / `undefined` results and for
    collaborator calls that throw. */
module Wrappers {

  datatype Option<+T> = None | Some(value: T)

}
