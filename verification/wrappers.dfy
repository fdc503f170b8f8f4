/** Optional values, used for the source's nullable lookups. */
module Wrappers {

  /** `None` stands for the `null` a lookup returns when nothing matches. */
  datatype Option<+T> = None | Some(value: T)
}
