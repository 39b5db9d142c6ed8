/** Small value types shared by the service and the controller. */
module Common {

  /** A value that may be null in the original program. */
  datatype Option<+T> = None | Some(value: T)

  /** How a call that may raise an exception ends: with a value, or by throwing. */
  datatype Outcome<+T> = Returned(value: T) | Threw

  /** An unsigned 8-bit value (a pixel channel, a byte of a file). */
  type byte = b: int | 0 <= b < 256
}
