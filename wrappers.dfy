/** Optional values: a JavaScript `null`/`undefined` field becomes `None`. */
module Wrappers {

  datatype Option<+T> = None | Some(value: T)

  function Max(a: int, b: int): int { if a < b then b else a }
}
