/** Optional values (a `null` in the source, or a storage entry that may be missing). */
module Wrappers {

  datatype Option<T> = None | Some(value: T)
}
