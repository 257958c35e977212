/**
 Go's machine types as the wire codec uses them: bytes, unsigned 64-bit words, and the
 two's-complement readings `int` (64 bits) and `int32`.
 */
module GoTypes {
  datatype Maybe<+T> = Nothing | Just(value: T)

  type byte = b: int | 0 <= b < 256

  const U32 := 0x1_0000_0000
  const U64 := 0x1_0000_0000_0000_0000

  /** The largest `int`; no Go slice or string is longer. */
  const MAX_INT := 0x7FFF_FFFF_FFFF_FFFF

  type uint64 = v: int | 0 <= v < U64
  type int32 = c: int | -0x8000_0000 <= c < 0x8000_0000

  /** A 64-bit word, or the sum of two non-negative ints, read as an `int`: it wraps beyond MAX_INT. */
  function Int64(x: int): (r: int)
    requires 0 <= x < U64
    ensures -MAX_INT - 1 <= r <= MAX_INT
    ensures r < 0 <==> x > MAX_INT
    ensures (x - r) % U64 == 0
  {
    if x > MAX_INT then x - U64 else x
  }

  /** `int32(x)`: the low 32 bits read as a signed number. */
  function Int32(x: int): (r: int32)
    ensures (x - r) % U32 == 0
  {
    var w := x % U32;
    if w >= 0x8000_0000 then w - U32 else w
  }

  /** `uint64(c)` for an `int32`: sign extension. */
  function SignExtend(c: int32): (v: uint64)
    ensures Int32(v) == c && (v - c) % U64 == 0
  {
    if c < 0 then c + U64 else c
  }

  /** A Go byte slice: nil and empty are different values. */
  datatype Slice = Nil | Bytes(b: seq<byte>)
  {
    function Data(): seq<byte> {
      if Nil? then [] else b
    }
  }
}
