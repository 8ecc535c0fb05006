/** What the unpacker reports besides the bytes it produces.  The messages
    the program prints are modelled as tags, not as text. */
module Diagnostics {

  /** A non-fatal message printed while an entry is being extracted; the
      entry is still written. */
  datatype Diagnostic =
    | SizeMismatch      // produced or consumed byte count differs from the header
    | InvalidOffset     // a back-reference names no byte produced so far
    | InvalidRunLength  // a back-reference is longer than the level allows

  /** A point where the program's behaviour is undefined; the model stops
      there instead of guessing what the memory access would yield. */
  datatype Fault =
    | Truncated  // a read past the end of the compressed payload
    | Overrun    // a write past the end of the uncompressed buffer

  /** A decoding that either completes with a value or reaches a point of
      undefined behaviour. */
  datatype Decoding<T> = Decoded(value: T) | Undefined(fault: Fault)
}
