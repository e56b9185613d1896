// A file as a flat sequence of bytes whose operations complete in full: the
// reference that the file adaptors are compared with, and their underlay.
module FlatFile {
  import opened Arith

  newtype Byte = x: int | 0 <= x < 256

  // pwrite: d replaces the bytes at off, a gap is filled with zeros.
  function Write(f: seq<Byte>, d: seq<Byte>, off: nat): seq<Byte> {
    if d == [] then f else seq(Max(|f|, off + |d|), i => WrittenByte(f, d, off, i))
  }

  function WrittenByte(f: seq<Byte>, d: seq<Byte>, off: nat, i: int): Byte {
    if off <= i < off + |d| then d[i - off] else if 0 <= i < |f| then f[i] else 0
  }

  function Truncate(f: seq<Byte>, n: nat): seq<Byte> {
    seq(n, i requires 0 <= i < n => if i < |f| then f[i] else 0)
  }

  // after is before with its first n bytes replaced by the n bytes that a read
  // of count bytes at off delivers.
  ghost predicate ReadInto(f: seq<Byte>, off: nat, count: nat, before: seq<Byte>, after: seq<Byte>, n: int) {
    && n == Min(count, Max(|f| - off, 0)) && n <= |after| == |before|
    && (forall i :: 0 <= i < n ==> after[i] == f[off + i])
    && (forall i :: n <= i < |after| ==> after[i] == before[i])
  }

  class File {
    var content: seq<Byte>

    constructor (c: seq<Byte>)
      ensures content == c
    { content := c; }

    // Reads into p[at..].
    method PRead(p: array<Byte>, at: nat, count: nat, off: nat) returns (n: nat)
      requires at + count <= p.Length
      modifies p
      ensures ReadInto(content, off, count, old(p[at..]), p[at..], n)
      ensures forall i :: 0 <= i < at ==> p[i] == old(p[i])
    {
      n := Min(count, Max(|content| - off, 0));
      forall i | 0 <= i < n { p[at + i] := content[off + i]; }
    }

    // Writes p[at..at + count].
    method PWrite(p: array<Byte>, at: nat, count: nat, off: nat) returns (n: nat)
      requires at + count <= p.Length
      modifies this
      ensures n == count && content == Write(old(content), p[at..at + count], off)
    {
      content := Write(content, p[at..at + count], off);
      n := count;
    }

    method FTruncate(n: nat)
      modifies this
      ensures content == Truncate(old(content), n)
    { content := Truncate(content, n); }
  }
}
