/** Machine integers of the C++ code, as ranges of `int` with explicit wrap-around. */
module Machine {

  const WORD32: int := 0x1_0000_0000
  const WORD64: int := 0x1_0000_0000_0000_0000

  type uint8 = x: int | 0 <= x < 0x100
  type uint32 = x: int | 0 <= x < WORD32
  type uint64 = x: int | 0 <= x < WORD64

  /** Conversion to `uint32_t`. */
  function Wrap32(x: int): uint32 {
    x % 0x1_0000_0000
  }

  /** Conversion to `size_t`. */
  function Wrap64(x: int): uint64 {
    x % 0x1_0000_0000_0000_0000
  }

  /** Wrapping at every addition is wrapping the sum. */
  lemma Wrap64Add(a: int, b: int)
    ensures Wrap64(Wrap64(a) + b) == Wrap64(a + b)
  {
    assert a == WORD64 * (a / WORD64) + Wrap64(a);
  }

  lemma SmallNumbersDoNotWrap(n: nat)
    ensures n < WORD32 ==> Wrap32(n) == n
    ensures n < WORD64 ==> Wrap64(n) == n
  {
  }

  datatype Option<+T> = None | Some(value: T)
}
