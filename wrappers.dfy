/** The optional value used for the results of the worker's
    collaborators (a JSON document that may not parse, a formatter that
    may fail). */
module Wrappers {

  datatype Option<+T> = None | Some(value: T)
}
