/** Optional values and read errors. */
module Wrappers {

  datatype Option<+T> = None | Some(value: T)

  /** Why encoded or compressed input could not be read. */
  datatype CorruptionKind = Truncated | InvalidHeader

  datatype Result<+T> = Ok(value: T) | Err(kind: CorruptionKind)
}
