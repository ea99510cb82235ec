/** Option datatype used where the source returns a nullable pointer or an
    optional value. */
module Wrappers {

  datatype Option<+T> = None | Some(value: T)

}
