/** Optional values: Java's nullable references and JSON fields that may be absent. */
module Wrappers {

  datatype Option<+T> = None | Some(value: T)
}
