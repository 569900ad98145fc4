/** Bytes and the few Go integer conversions the rewriter relies on. */
module Bytes {

  /** A Go `byte` (`uint8`). */
  type Byte = b: int | 0 <= b < 0x100

  /** Go's conversion `uint8(x)` of an `int`: keeps the low 8 bits. Dafny's `%`
      is Euclidean, which agrees with two's-complement truncation for every
      `x`, negative ones included. */
  function Uint8(x: int): (b: Byte)
    ensures 0 <= x < 0x100 ==> b == x
    ensures (x - b) % 0x100 == 0
  {
    x % 0x100
  }

  /** The value of a big-endian 16-bit field. */
  function Uint16(hi: Byte, lo: Byte): (v: int)
    ensures 0 <= v < 0x10000
  {
    hi as int * 0x100 + lo as int
  }

  /** All chunks joined in order. */
  function Concat(chunks: seq<seq<Byte>>): (s: seq<Byte>)
    decreases |chunks|
  {
    if chunks == [] then [] else chunks[0] + Concat(chunks[1..])
  }

  /** `s` with its first `k` bytes removed; everything when `k <= 0`, nothing
      left when `k >= |s|`. */
  function Drop(s: seq<Byte>, k: int): (r: seq<Byte>)
    ensures |r| == if k <= 0 then |s| else if k >= |s| then 0 else |s| - k
    ensures r == s[|s| - |r|..]
  {
    if k <= 0 then s else if k >= |s| then [] else s[k..]
  }

  /** The input split into one-byte chunks. */
  function Bytewise(s: seq<Byte>): (chunks: seq<seq<Byte>>)
    ensures |chunks| == |s|
    ensures forall i :: 0 <= i < |s| ==> chunks[i] == [s[i]]
  {
    seq(|s|, i requires 0 <= i < |s| => [s[i]])
  }

  /** Splitting a stream into single bytes loses nothing and reorders nothing. */
  lemma {:induction false} ConcatBytewise(s: seq<Byte>)
    ensures Concat(Bytewise(s)) == s
    decreases |s|
  {
    if s != [] {
      assert Bytewise(s)[1..] == Bytewise(s[1..]);
      ConcatBytewise(s[1..]);
      assert s == [s[0]] + s[1..];
    }
  }
}
