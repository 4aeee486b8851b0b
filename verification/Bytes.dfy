/** Byte strings, and the small wrappers the other modules share. */
module Bytes {
  type Byte = b: int | 0 <= b < 256
  type Bytes = seq<Byte>

  /** Cache keys and transaction ids: their length must fit the one-byte length
      field of a key list (mc_sqltrig.h). */
  type Key = k: Bytes | |k| < 256

  datatype Option<+T> = None | Some(value: T)

  /** A buffer with src in it from at on. */
  function Written(d: Bytes, at: nat, src: Bytes): (r: Bytes)
    requires at + |src| <= |d|
    ensures |r| == |d|
  {
    d[..at] + src + d[at + |src|..]
  }

  /** memcpy between buffers that do not overlap */
  method Copy(dest: array<Byte>, at: nat, src: Bytes)
    requires at + |src| <= dest.Length
    modifies dest
    ensures dest[..] == Written(old(dest[..]), at, src)
  {
    for j := 0 to |src|
      invariant forall i :: 0 <= i < dest.Length ==> dest[i] == if at <= i < at + j then src[i - at] else old(dest[i])
    {
      dest[at + j] := src[j];
    }
  }
}
