/** Bytes as numbers, bytes as bit patterns, and the byte strings that C ends with a NUL. */
module Bytes {

  type Byte = b: int | 0 <= b < 256

  type Octet = bv8

  type Text = s: seq<Octet> | forall i :: 0 <= i < |s| ==> s[i] != 0

  datatype Option<+T> = None | Some(value: T)
}
