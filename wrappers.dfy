/** Small helper datatypes shared by the storage-engine modules. */
module Wrappers {

  /** A value that may be absent; stands for a Java reference that may be null. */
  datatype Option<+T> = None | Some(value: T)
}
