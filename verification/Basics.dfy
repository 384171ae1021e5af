/**
  What the other modules share.
 */
module Basics {

  type Byte = b: int | 0 <= b < 256

  datatype Option<+T> = None | Some(value: T)

  /** The bytes of an ASCII text. */
  function Text(s: string): (bytes: seq<Byte>)
    requires forall i | 0 <= i < |s| :: s[i] as int < 128
    ensures |bytes| == |s| && forall i | 0 <= i < |s| :: bytes[i] == s[i] as int
  {
    seq(|s|, i requires 0 <= i < |s| => s[i] as int)
  }
}
