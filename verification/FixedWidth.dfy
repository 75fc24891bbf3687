/** The wrap-around of C#'s 32-bit and 64-bit integers in an unchecked context. */
module FixedWidth {

  const INT32_MAX: int := 0x7FFF_FFFF
  const INT64_MAX: int := 0x7FFF_FFFF_FFFF_FFFF

  /** Longest buffer for which the cursor plus one scalar of at most 16 bytes cannot wrap. */
  const MAX_LENGTH: int := INT32_MAX - 16

  predicate IsInt32(n: int) {
    -INT32_MAX - 1 <= n <= INT32_MAX
  }

  predicate IsInt64(n: int) {
    -INT64_MAX - 1 <= n <= INT64_MAX
  }

  function WrapInt32(n: int): (r: int)
    ensures IsInt32(r) && (IsInt32(n) ==> r == n)
  {
    (n + 0x8000_0000) % 0x1_0000_0000 - 0x8000_0000
  }

  function WrapInt64(n: int): (r: int)
    ensures IsInt64(r) && (IsInt64(n) ==> r == n)
  {
    (n + 0x8000_0000_0000_0000) % 0x1_0000_0000_0000_0000 - 0x8000_0000_0000_0000
  }

  function WrapUInt32(n: int): (r: nat)
    ensures r < 0x1_0000_0000
  {
    n % 0x1_0000_0000
  }

  /** One step outside the range wraps once. */
  lemma WrapOnce(n: int)
    requires -0x1_0000_0000 <= n < 0x1_0000_0000
    ensures WrapInt32(n) == if n > INT32_MAX then n - 0x1_0000_0000 else if n < -INT32_MAX - 1 then n + 0x1_0000_0000 else n
  {
  }

  /** Casting to `uint` before a comparison, and to `int` after it, keeps the low 32 bits. */
  lemma LowHalf(n: int, length: nat)
    requires length <= INT32_MAX
    ensures WrapUInt32(n) == n % 0x1_0000_0000 && WrapUInt32(length) == length
    ensures n % 0x1_0000_0000 <= length ==> WrapInt32(n) == n % 0x1_0000_0000
  {
    var low, high := n % 0x1_0000_0000, n / 0x1_0000_0000;
    assert n == 0x1_0000_0000 * high + low;
    if low <= length {
      assert n + 0x8000_0000 == 0x1_0000_0000 * high + (low + 0x8000_0000);
    }
  }
}
