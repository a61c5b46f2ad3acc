/** Types and functions shared by the modules. */
module Wrappers {

  datatype Option<+T> = None | Some(value: T)

  /** An `unsigned char`, a `uint8_t`. */
  type Byte = b: int | 0 <= b < 256

  function Without<T>(s: seq<T>, i: nat): seq<T>
    requires i < |s|
  {
    s[..i] + s[i + 1..]
  }

  function Pow2(n: nat): (p: nat)
    ensures p > 0
  {
    if n == 0 then 1 else 2 * Pow2(n - 1)
  }
}
