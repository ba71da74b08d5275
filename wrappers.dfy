/** Optional values: `None` stands for a TypeScript `undefined` / `null` or a missing optional property. */
module Wrappers {

  datatype Option<+T> = None | Some(value: T)
}
