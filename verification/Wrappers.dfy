/** Optional values, fallible results, bytes and machine-word arithmetic, shared by every module of the model. */
module Wrappers {

  datatype Option<+T> = None | Some(value: T)

  datatype Result<+T, +E> = Ok(value: T) | Err(error: E)

  type Byte = x: nat | x < 256

  const USIZE_MAX: nat := 0xFFFF_FFFF_FFFF_FFFF

  function Min(a: nat, b: nat): nat {
    if a <= b then a else b
  }

  function Max(a: nat, b: nat): nat {
    if a <= b then b else a
  }

  function SaturatingSub(a: nat, b: nat): nat {
    if a < b then 0 else a - b
  }
}
