/** The optional value: jQuery data that may be absent, a record that may be
    null, an index that may be undefined. */
module Wrappers {

  datatype Option<+T> = None | Some(value: T)

}
