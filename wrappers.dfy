/** Small helper datatypes shared by the Raft model. */
module Wrappers {

  /** An optional value: `None` stands for "nothing" (a skipped peer, no election to start). */
  datatype Option<T> = None | Some(value: T)
}
