/** The optional value used wherever the source returns `None` or a dict lookup may miss. */
module Wrappers {

  datatype Option<+T> = None | Some(value: T)

}
