/** Go's fixed-width integers and the two ways a call can end. */
module Go {

  type byte = x: int | 0 <= x < 0x100
  type uint16 = x: int | 0 <= x < 0x1_0000
  type int32 = x: int | -0x8000_0000 <= x < 0x8000_0000
  type int64 = x: int | -0x8000_0000_0000_0000 <= x < 0x8000_0000_0000_0000

  const TWO_32 := 0x1_0000_0000

  /** The conversion `int32(x)`: keep the low 32 bits, two's complement. */
  function ToInt32(x: int): (r: int32)
    ensures (r - x) % 0x1_0000_0000 == 0
  {
    var low := x % TWO_32;
    if low < 0x8000_0000 then low else low - TWO_32
  }

  /** A call returns a value, or panics (an index or slice bound out of range). */
  datatype Outcome<+T> = Returns(value: T) | Panics

  datatype Option<+T> = None | Some(value: T)
}
