/** The optional value used for the page's nullable state cells. */
module Wrappers {

  /** `None` stands for the source's `null`. */
  datatype Option<+T> = None | Some(value: T)
}
