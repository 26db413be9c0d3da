/** Bytes, and the C view of a nul-terminated byte buffer. */
module Bytes {

  type byte = b: int | 0 <= b < 256

  /** The terminating byte Lua appends to every string for C interoperability. */
  const NUL: byte := 0

  /** The buffer Lua keeps for a string: its content followed by one terminating NUL. */
  function NulTerminated(content: seq<byte>): (buf: seq<byte>)
    ensures |buf| == |content| + 1
    ensures buf[..|content|] == content
    ensures buf[|content|] == NUL
  {
    content + [NUL]
  }

  /** What C's `strlen` reports for a buffer: the number of bytes before the first NUL
      (the whole buffer when it holds none). */
  function CStrLen(buf: seq<byte>): (n: nat)
    ensures n <= |buf|
    ensures forall i :: 0 <= i < n ==> buf[i] != NUL
    ensures n < |buf| ==> buf[n] == NUL
  {
    if buf == [] || buf[0] == NUL then 0 else 1 + CStrLen(buf[1..])
  }
}
