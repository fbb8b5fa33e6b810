/** Shared value types. */
module Basics {

  datatype Option<+T> = None | Some(value: T)

  type byte = b: int | 0 <= b < 256

  /** A Go string is a sequence of bytes. */
  type Str = seq<byte>

  /** The bytes of an ASCII literal. */
  function Ascii(s: string): Str
    requires forall i | 0 <= i < |s| :: s[i] < 128 as char
  {
    seq(|s|, i requires 0 <= i < |s| => s[i] as int)
  }
}
