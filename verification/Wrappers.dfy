/** Values that may be absent and the sizes of the machine, shared by the modules of the model. */
module Wrappers {

  const PAGE_SIZE := 4096
  const MAX_FRAMES := 0x10_0000  // frames the reference counts and bitmaps have room for

  datatype Option<+T> = None | Some(value: T)

  /** One octet of memory. */
  type byte = b: int | 0 <= b < 256

  /** A buffer that has just been zero-filled. */
  function Zeros(n: nat): (z: seq<byte>)
    ensures |z| == n && forall i :: 0 <= i < n ==> z[i] == 0
  {
    seq(n, _ => 0)
  }

  function Max(a: int, b: int): int {
    if a >= b then a else b
  }

  function Min(a: int, b: int): int {
    if a <= b then a else b
  }
}
