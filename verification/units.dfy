/** Bytes and the unit payload of the recogniser (src/lib.rs). */
module Units {

  /** A `u8`. */
  type byte = x: int | 0 <= x < 256

  /** The ten duration units, from largest to smallest. */
  datatype Unit =
    | Year | Month | Week | Day | Hour
    | Minute | Second | Millisecond | Microsecond | Nanosecond

  /** The error of every designator lookup; the message text is abstracted away. */
  datatype LookupError =
    | EndOfInput                     // the message that reports the end of the input
    | Unrecognized(found: seq<byte>) // the message that quotes the bytes found instead
}
