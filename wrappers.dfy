/** The optional value the scene code uses `null` for. */
module Wrappers {

  datatype Option<+T> = None | Some(value: T)

}
