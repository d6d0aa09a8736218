/** The optional value shared by the partitioners and the perf consumers. */
module Wrappers {
  datatype Option<T> = None | Some(value: T)
}
