/** The optional values the client meets: a JSON field that may be absent, a dataset attribute that may be missing. */
module Wrappers {

  datatype Option<+T> = None | Some(value: T)

}
