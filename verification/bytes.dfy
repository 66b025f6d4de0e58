/** Byte-level vocabulary shared by all stages: bytes, little-endian 16-bit
    fields as `struct` unpacks an `H`, reads from an in-memory stream that
    may end early, and the additive checksum. */
module Bytes {

  type byte = b: int | 0 <= b < 256

  type ByteString = seq<byte>

  function Min(a: int, b: int): int {
    if a <= b then a else b
  }

  function Max(a: int, b: int): int {
    if a >= b then a else b
  }

  /** The ASCII bytes of a text literal. */
  function Ascii(s: string): (r: ByteString)
    requires forall i :: 0 <= i < |s| ==> s[i] as int < 128
    ensures |r| == |s|
    ensures forall i :: 0 <= i < |s| ==> r[i] == s[i] as int
  {
    seq(|s|, i requires 0 <= i < |s| => s[i] as int)
  }

  /** A little-endian unsigned 16-bit field: `lo` is the low byte. */
  function Le16(lo: byte, hi: byte): (v: nat)
    ensures v < 0x1_0000
    ensures v % 256 == lo && v / 256 == hi
  {
    lo + 256 * hi
  }

  /** The two bytes a little-endian 16-bit field holds. */
  function Le16Bytes(v: nat): (b: ByteString)
    requires v < 0x1_0000
    ensures |b| == 2 && Le16(b[0], b[1]) == v
  {
    [v % 256, v / 256]
  }

  /** What reading `n` bytes at position `pos` of a stream holding `s`
      returns: fewer than `n` bytes when the stream ends first, nothing at
      or past the end, and everything up to the end when `n` is negative. */
  function ReadAt(s: ByteString, pos: nat, n: int): (r: ByteString)
    ensures pos >= |s| ==> r == []
    ensures pos < |s| && 0 <= n ==> |r| == Min(n, |s| - pos)
    ensures pos < |s| && n < 0 ==> |r| == |s| - pos
    ensures forall i :: 0 <= i < |r| ==> pos + i < |s| && r[i] == s[pos + i]
  {
    if pos >= |s| then []
    else if n < 0 || pos + n > |s| then s[pos..]
    else s[pos..pos + n]
  }

  /** The two halves of a concatenation. */
  lemma SplitAppend(a: ByteString, b: ByteString)
    ensures (a + b)[..|a|] == a && (a + b)[|a|..] == b
  {
  }

  /** Concatenation regroups freely. */
  lemma AppendAssoc(a: ByteString, b: ByteString, c: ByteString)
    ensures a + b + c == a + (b + c)
  {
  }

  /** Two adjacent slices join into one. */
  lemma JoinSlices(s: ByteString, i: nat, j: nat, x: ByteString, y: ByteString)
    requires i + |x| == j && j + |y| <= |s|
    requires s[i..j] == x && s[j..j + |y|] == y
    ensures s[i..j + |y|] == x + y
  {
    assert s[i..j + |y|] == s[i..j] + s[j..j + |y|];
  }

  /** The plain (unbounded) sum of a byte string. */
  function Sum(s: ByteString): nat {
    if |s| == 0 then 0 else Sum(s[..|s| - 1]) + s[|s| - 1]
  }

  /** A run of `n` copies of byte `b`. */
  function Repeat(b: byte, n: nat): (r: ByteString)
    ensures |r| == n
    ensures forall i :: 0 <= i < n ==> r[i] == b
  {
    seq(n, _ => b)
  }
}
