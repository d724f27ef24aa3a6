/**
 * The fixed-width Go integer types the model needs, and Go's two's-complement
 * wrap-around for signed 64-bit arithmetic. Go's `int` is taken to be 64 bits
 * wide, as on every platform the tool is built for.
 */
module GoInts {

  const TWO_63: int := 0x8000_0000_0000_0000
  const TWO_64: int := 0x1_0000_0000_0000_0000

  type uint8 = x: int | 0 <= x < 0x100
  type uint16 = x: int | 0 <= x < 0x1_0000
  type int64 = x: int | -0x8000_0000_0000_0000 <= x < 0x8000_0000_0000_0000

  predicate InInt64(x: int) {
    -TWO_63 <= x < TWO_63
  }

  /** The int64 value a Go program holds after computing the exact value x. */
  function Wrap64(x: int): (r: int64)
    ensures (x - r) % TWO_64 == 0
    ensures InInt64(x) ==> r == x
  {
    var m := (x + TWO_63) % TWO_64;
    assert x + TWO_63 == ((x + TWO_63) / TWO_64) * TWO_64 + m;
    m - TWO_63
  }

  /** Go's `a + b` on int64. */
  function Add64(a: int64, b: int64): (r: int64)
    ensures InInt64(a + b) ==> r == a + b
    ensures (a + b - r) % TWO_64 == 0
  {
    Wrap64(a + b)
  }

  /** Go's `a * b` on int64. */
  function Mul64(a: int64, b: int64): (r: int64)
    ensures InInt64(a * b) ==> r == a * b
    ensures (a * b - r) % TWO_64 == 0
  {
    Wrap64(a * b)
  }

  /** Go's `a + b` on uint8: the sum modulo 256. */
  function Add8(a: uint8, b: uint8): (r: uint8)
    ensures a + b < 0x100 ==> r == a + b
    ensures a + b >= 0x100 ==> r == a + b - 0x100
  {
    (a + b) % 0x100
  }

  /** A value congruent to x modulo 2^64 and within the int64 range is x's wrap. */
  lemma Wrap64Unique(x: int, r: int)
    requires InInt64(r) && (x - r) % TWO_64 == 0
    ensures Wrap64(x) == r
  {
    var w := Wrap64(x);
    var k := (x - r) / TWO_64;
    var j := (x - w) / TWO_64;
    assert x - r == k * TWO_64;
    assert x - w == j * TWO_64;
    assert w - r == (k - j) * TWO_64;
    assert -TWO_64 < w - r < TWO_64;
  }

  /** Wrapping before adding d gives the same int64 as wrapping after. */
  lemma Wrap64Shift(x: int, d: int)
    ensures Wrap64(Wrap64(x) + d) == Wrap64(x + d)
  {
    var w := Wrap64(x);
    var r := Wrap64(w + d);
    var k1, k2 := (x - w) / TWO_64, (w + d - r) / TWO_64;
    assert x - w == k1 * TWO_64;
    assert w + d - r == k2 * TWO_64;
    assert (x + d) - r == (k1 + k2) * TWO_64;
    assert ((k1 + k2) * TWO_64) % TWO_64 == 0;
    Wrap64Unique(x + d, r);
  }
}
