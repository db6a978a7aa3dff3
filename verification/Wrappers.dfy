/** Optional values: `None` stands for the C# `null` and the Python `None`. */
module Wrappers {

  datatype Option<+T> = None | Some(value: T)
}
