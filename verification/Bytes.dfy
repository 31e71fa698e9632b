/** Bytes, little-endian words and the wrap-around of uint32 arithmetic. */
module Bytes {
  type Byte = x: int | 0 <= x < 256

  const TWO32: int := 0x1_0000_0000

  /** A uint32 subtraction, which wraps below zero. */
  function Sub32(a: nat, b: nat): (r: nat)
    requires a < TWO32 && b < TWO32
  {
    if a >= b then a - b else a + TWO32 - b
  }

  /** A uint32 addition, which wraps at 2^32. */
  function Add32(a: nat, b: nat): (r: nat)
    requires a < TWO32 && b < TWO32
  {
    if a + b < TWO32 then a + b else a + b - TWO32
  }

  /** The little-endian value of the first four bytes. */
  function Le32(b: seq<Byte>): (r: nat)
    requires |b| >= 4
    ensures r < TWO32
  {
    b[0] as int + 256 * (b[1] as int + 256 * (b[2] as int + 256 * b[3] as int))
  }

  function PutLe32(n: nat): (b: seq<Byte>)
    requires n < TWO32
    ensures |b| == 4 && Le32(b) == n
  {
    var n1 := n / 256;
    var n2 := n1 / 256;
    [n % 256, n1 % 256, n2 % 256, n2 / 256]
  }

  lemma Le32Unique(b: seq<Byte>)
    requires |b| == 4
    ensures PutLe32(Le32(b)) == b
  {
    var n := Le32(b);
    assert n / 256 == b[1] as int + 256 * (b[2] as int + 256 * b[3] as int);
    assert n / 256 / 256 == b[2] as int + 256 * b[3] as int;
  }
}
