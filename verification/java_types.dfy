/** Java's fixed-width integers as subsets of `int`, with the casts the
    source relies on written out (two's complement wrap-around). Bit masks by a
    power of two are Dafny's Euclidean `%`, which agrees with Java's `&` on
    negative operands; arithmetic right shift is Euclidean `/`. */
module JavaTypes {

  const BYTE_RANGE: int := 0x100
  const SHORT_RANGE: int := 0x1_0000
  const INT_RANGE: int := 0x1_0000_0000
  const LONG_RANGE: int := 0x1_0000_0000_0000_0000

  /** An element of a Java `byte[]`, read as `b & 0xFF`. */
  type uint8 = x: int | 0 <= x < 0x100
  type uint16 = x: int | 0 <= x < 0x1_0000
  type uint32 = x: int | 0 <= x < 0x1_0000_0000
  type uint64 = x: int | 0 <= x < 0x1_0000_0000_0000_0000

  type int8 = x: int | -0x80 <= x < 0x80
  type int16 = x: int | -0x8000 <= x < 0x8000
  type int32 = x: int | -0x8000_0000 <= x < 0x8000_0000
  type int64 = x: int | -0x8000_0000_0000_0000 <= x < 0x8000_0000_0000_0000

  type bytes = seq<uint8>

  /** `(byte) x`. */
  function ToInt8(x: int): (r: int8)
    ensures (r - x) % BYTE_RANGE == 0
  {
    var m := x % BYTE_RANGE;
    if m >= 0x80 then m - BYTE_RANGE else m
  }

  /** `(short) x`. */
  function ToInt16(x: int): (r: int16)
    ensures (r - x) % SHORT_RANGE == 0
  {
    var m := x % SHORT_RANGE;
    if m >= 0x8000 then m - SHORT_RANGE else m
  }

  /** `(int) x`. */
  function ToInt32(x: int): (r: int32)
    ensures (r - x) % INT_RANGE == 0
  {
    var m := x % INT_RANGE;
    if m >= 0x8000_0000 then m - INT_RANGE else m
  }

  /** `(long) x` for a value already reduced modulo 2^64. */
  function ToInt64(x: int): (r: int64)
    ensures (r - x) % LONG_RANGE == 0
  {
    var m := x % LONG_RANGE;
    if m >= 0x8000_0000_0000_0000 then m - LONG_RANGE else m
  }

  /** `x & 0xFF` for a Java byte. */
  function U8(x: int8): (r: uint8)
    ensures ToInt8(r) == x
  {
    if x < 0 then x + BYTE_RANGE else x
  }

  /** `x & 0xFFFF` for a Java short. */
  function U16(x: int16): (r: uint16)
    ensures ToInt16(r) == x
  {
    if x < 0 then x + SHORT_RANGE else x
  }

  /** The unsigned reading of a Java int (as `>>>` sees it). */
  function U32(x: int32): (r: uint32)
    ensures ToInt32(r) == x
  {
    if x < 0 then x + INT_RANGE else x
  }

  function U64(x: int64): (r: uint64)
    ensures ToInt64(r) == x
  {
    if x < 0 then x + LONG_RANGE else x
  }

  /** Reading a signed value back from its unsigned form is the identity on
      the signed range and a wrap on the rest. */
  lemma Int16RoundTrip(u: uint16)
    ensures U16(ToInt16(u)) == u
  {
  }

  lemma Int8RoundTrip(u: uint8)
    ensures U8(ToInt8(u)) == u
  {
  }

  function Xor8(a: uint8, b: uint8): (r: uint8)
  {
    ((a as bv8) ^ (b as bv8)) as int
  }

  /** Euclidean division recovers quotient and remainder. */
  lemma DivMod(q: int, r: int, d: int)
    requires 0 <= r < d
    ensures (q * d + r) / d == q && (q * d + r) % d == r
  {
    var n := q * d + r;
    var k := n / d - q;
    assert k * d == r - n % d by {
      assert n == (n / d) * d + n % d;
      assert k * d == (n / d) * d - q * d;
    }
  }
}
