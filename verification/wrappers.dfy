/** The optional value used where the allocator signals "nothing" with a sentinel. */
module Wrappers {

  datatype Option<+T> = None | Some(value: T)
}
