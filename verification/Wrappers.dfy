module Wrappers {
  /** The return code of everything that succeeds. */
  const KV_OK: int := 0

  datatype Option<+T> = None | Some(value: T)
}
