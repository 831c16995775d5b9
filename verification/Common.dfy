/** Types shared by the models of the gateway's components. */
module Common {

  datatype Option<+T> = None | Some(value: T)

  /** One past the largest value of Go's `uint64`. */
  const TWO64: int := 0x1_0000_0000_0000_0000

  type uint64 = x: int | 0 <= x < 0x1_0000_0000_0000_0000

  /** Subtraction of `uint64` values, which wraps when `b` is the larger. */
  function Minus(a: uint64, b: uint64): uint64 {
    (a - b) % TWO64
  }
}
