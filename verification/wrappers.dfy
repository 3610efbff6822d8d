/** The optional value that stands in for JavaScript's `undefined` and for the
    empty-string "unset" marker of form fields (`number | ''`). */
module Wrappers {

  datatype Option<+T> = None | Some(value: T)
}
