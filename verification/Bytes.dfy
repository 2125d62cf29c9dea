/** Byte sequences, shared by the file system and the thread storage. */
module Bytes {

  type Byte = b: int | 0 <= b < 256

  function Min(a: int, b: int): int {
    if a < b then a else b
  }

  function Max(a: int, b: int): int {
    if a < b then b else a
  }

  /** `s` with the bytes from `offset` on replaced by `b`, extended if `b` reaches past the end. */
  function Splice(s: seq<Byte>, offset: nat, b: seq<Byte>): (r: seq<Byte>)
    requires offset <= |s|
    ensures |r| == Max(|s|, offset + |b|)
    ensures forall i :: 0 <= i < |r| ==> r[i] == if offset <= i < offset + |b| then b[i - offset] else s[i]
  {
    s[..offset] + b + s[Min(|s|, offset + |b|)..]
  }

  /** `s` with byte `k` replaced. */
  function SetAt(s: seq<Byte>, k: nat, b: Byte): (r: seq<Byte>)
    requires k < |s|
    ensures |r| == |s|
    ensures forall i :: 0 <= i < |s| ==> r[i] == if i == k then b else s[i]
  {
    s[k := b]
  }

  function Zeros(n: nat): (z: seq<Byte>)
    ensures |z| == n
    ensures forall i :: 0 <= i < n ==> z[i] == 0
  {
    seq(n, _ => 0)
  }

  /** Splicing in one byte more. */
  lemma SpliceNext(s: seq<Byte>, offset: nat, b: seq<Byte>, n: nat)
    requires n < |b| && offset + |b| <= |s|
    ensures SetAt(Splice(s, offset, b[..n]), offset + n, b[n]) == Splice(s, offset, b[..n + 1])
  {}
}
