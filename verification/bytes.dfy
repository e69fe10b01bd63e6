/**
 Machine integers and byte buffers as the packet handlers see them.

 Dafny integers are unbounded, so the fixed widths of the Go source are
 spelled out as newtypes, and Go's conversion `uint32(x)` is written as an
 explicit function that keeps the low 32 bits.
 */
module Bytes {

  newtype uint8 = x: int | 0 <= x < 0x100
  newtype uint16 = x: int | 0 <= x < 0x1_0000
  newtype uint32 = x: int | 0 <= x < 0x1_0000_0000

  const TWO_TO_THE_32: int := 0x1_0000_0000

  /** A raw packet buffer (a Go `[]byte`). */
  type Bytes = seq<uint8>

  /** Go's conversion `uint32(x)` of an integer: two's-complement truncation
      to the low 32 bits. The result is the unique 32-bit value congruent to
      `x` modulo 2^32, and it is `x` itself whenever `x` already fits. */
  function ToUint32(x: int): (r: uint32)
    ensures (x - r as int) % TWO_TO_THE_32 == 0
    ensures 0 <= x < TWO_TO_THE_32 ==> r as int == x
    ensures 0 <= x ==> r as int <= x
  {
    (x % TWO_TO_THE_32) as uint32
  }

  /** The congruence in the contract of `ToUint32` pins the result down: no
      other 32-bit value is congruent to `x`. */
  lemma ToUint32Unique(x: int, y: uint32)
    requires (x - y as int) % TWO_TO_THE_32 == 0
    ensures y == ToUint32(x)
  {
  }

  /** `uint32(len(s))`: the length a verdict declares for buffer `s`. */
  function Len32(s: Bytes): (r: uint32)
    ensures |s| < TWO_TO_THE_32 ==> r as int == |s|
    ensures r as int <= |s|
    ensures (|s| - r as int) % TWO_TO_THE_32 == 0
  {
    ToUint32(|s|)
  }

  /** `uint32(q)` for a 16-bit queue number: a widening conversion. */
  function Widen16(q: uint16): (r: uint32)
    ensures r as int == q as int
  {
    q as int as uint32
  }
}
