/** Bytes as the editor sees them, the control characters it reacts to, and Option. */
module Bytes {

  /** One byte of a line, of the input stream or of the output buffer. */
  type Byte = b: int | 0 <= b < 256

  const NUL: Byte := 0
  const TAB: Byte := 9
  const LF: Byte := 10
  const CR: Byte := 13
  const ESC: Byte := 27
  const SPACE: Byte := 32

  datatype Option<+T> = None | Some(value: T)

  /** `memcpy(&dst[at], src, |src|)`: the bytes of `src` overwrite `dst` from index `at` on. */
  method CopyBytes(dst: array<Byte>, at: nat, src: seq<Byte>)
    requires at + |src| <= dst.Length
    modifies dst
    ensures dst[..] == old(dst[..at]) + src + old(dst[at + |src|..])
  {
    var k := 0;
    while k < |src|
      invariant 0 <= k <= |src|
      invariant forall i :: 0 <= i < dst.Length && !(at <= i < at + k) ==> dst[i] == old(dst[i])
      invariant forall i :: at <= i < at + k ==> dst[i] == src[i - at]
    {
      dst[at + k] := src[k];
      k := k + 1;
    }
    assert dst[..] == old(dst[..at]) + src + old(dst[at + |src|..]);
  }
}
