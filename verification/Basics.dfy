/** What several components share: optional values, maxima, and machine words. */
module Basics {

  datatype Option<T> = None | Some(value: T)

  function Max(a: int, b: int): int {
    if a > b then a else b
  }

  function Repeat(c: char, n: nat): (s: string)
    ensures |s| == n && forall i | 0 <= i < n :: s[i] == c
  {
    seq(n, _ => c)
  }

  const TWO64: nat := 0x1_0000_0000_0000_0000
  const TWO32: nat := 0x1_0000_0000

  /** What 64 and 32 bits keep of a number. */
  function Wrap64(x: int): nat {
    x % TWO64
  }

  function Wrap32(x: int): nat {
    x % TWO32
  }
}
