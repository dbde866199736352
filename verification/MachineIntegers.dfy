/** The C integer types the library computes with, and the wrap-around of its unsigned ones. */
module MachineIntegers {
  const U32_LIMIT := 0x1_0000_0000
  const U64_LIMIT := 0x1_0000_0000_0000_0000

  type u8 = x: int | 0 <= x < 0x100
  type u32 = x: int | 0 <= x < 0x1_0000_0000
  type u64 = x: int | 0 <= x < 0x1_0000_0000_0000_0000
  type i32 = x: int | -0x8000_0000 <= x < 0x8000_0000

  /** The value an unsigned 32-bit expression takes when its exact result is `x`. */
  function Wrap32(x: int): u32 { x % U32_LIMIT }

  /** The value an unsigned 64-bit expression takes when its exact result is `x`. */
  function Wrap64(x: int): u64 { x % U64_LIMIT }

  lemma WrapOnce(x: nat)
    ensures x < U64_LIMIT ==> Wrap64(x) == x
    ensures U64_LIMIT <= x < 2 * U64_LIMIT ==> Wrap64(x) == x - U64_LIMIT
  {
  }

  lemma NoWrap32(x: nat)
    requires x < U32_LIMIT
    ensures Wrap32(x) == x
  {
  }

  /** A factor may be wrapped before or after a multiplication. */
  lemma WrapProduct(a: int, b: int)
    ensures Wrap64(Wrap64(a) * b) == Wrap64(a * b)
  {
    var q := a / U64_LIMIT;
    assert a == q * U64_LIMIT + Wrap64(a);
    assert a * b == (q * b) * U64_LIMIT + Wrap64(a) * b;
  }

  /** Summands may be wrapped before or after an addition. */
  lemma WrapSum(a: int, b: int)
    ensures Wrap32(Wrap32(a) + b) == Wrap32(a + b)
    ensures Wrap32(Wrap32(a) + Wrap32(b)) == Wrap32(a + b)
  {
  }
}
