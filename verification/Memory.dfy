/** Byte buffers and the C library's block operations on them. */
module Memory {

  type Byte = x: nat | x < 256

  /** `memcpy` from a source that does not overlap the destination. */
  method CopyIn(dst: array<Byte>, at: nat, data: seq<Byte>)
    requires at + |data| <= dst.Length
    modifies dst
    ensures dst[..] == old(dst[..at]) + data + old(dst[at + |data|..])
  {
    var i := 0;
    while i < |data|
      invariant i <= |data|
      invariant dst[..at + i] == old(dst[..at]) + data[..i] && dst[at + i..] == old(dst[at + i..])
    {
      dst[at + i] := data[i];
      i := i + 1;
    }
  }

  function Zeros(n: nat): (s: seq<Byte>)
    ensures |s| == n && forall i | 0 <= i < n :: s[i] == 0
  {
    if n == 0 then [] else [0] + Zeros(n - 1)
  }

  /** `memset` to zero. */
  method Clear(dst: array<Byte>, at: nat, n: nat)
    requires at + n <= dst.Length
    modifies dst
    ensures dst[..] == old(dst[..at]) + Zeros(n) + old(dst[at + n..])
  {
    CopyIn(dst, at, Zeros(n));
  }
}
