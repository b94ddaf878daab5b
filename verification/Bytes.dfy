/** Bytes, and `mymemset`. */
module Bytes {

  type Byte = b: int | 0 <= b < 256

  /** `mymemset`: the first n cells hold c. */
  method MyMemset<T>(buf: array<T>, c: T, n: nat)
    requires n <= buf.Length
    modifies buf
    ensures forall k :: 0 <= k < n ==> buf[k] == c
    ensures forall k :: n <= k < buf.Length ==> buf[k] == old(buf[k])
  {
    for i := 0 to n
      invariant forall k :: 0 <= k < i ==> buf[k] == c
      invariant forall k :: n <= k < buf.Length ==> buf[k] == old(buf[k])
    {
      buf[i] := c;
    }
  }
}
