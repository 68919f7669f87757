module Basics {
  datatype Option<+T> = None | Some(value: T)

  type Byte = b: nat | b < 256

  /** net::OK and net::ERR_IO_PENDING */
  const OK: int := 0
  const ERR_IO_PENDING: int := -1

  function Min(a: int, b: int): int {
    if a < b then a else b
  }

  function Max(a: int, b: int): int {
    if a < b then b else a
  }
}
