/** Optional results: the source returns `None` where no value exists. */
module Wrappers {

  datatype Option<+T> = None | Some(value: T)

}
