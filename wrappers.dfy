/** Optional values: `None` stands for a .NET `null` reference. */
module Wrappers {

  datatype Option<+T> = None | Some(value: T)
}
