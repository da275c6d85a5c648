/** The optional value used wherever the JavaScript code returns `undefined`
    for "not found". */
module Wrappers {

  datatype Option<+T> = None | Some(value: T)
}
