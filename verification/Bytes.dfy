/** Bytes, fixed-width integers, and windows of byte strings. */
module Bytes {

  type byte = x: int | 0 <= x < 0x100
  type u16 = x: int | 0 <= x < 0x1_0000
  type u32 = x: int | 0 <= x < 0x1_0000_0000
  type bytes = seq<byte>

  datatype Option<+T> = None | Some(value: T)

  /** The 16-bit field in network byte order at `off` (what bpf_ntohs reads). */
  function Get16(s: bytes, off: nat): u16
    requires off + 2 <= |s|
  {
    s[off] as int * 0x100 + s[off + 1]
  }

  function Put16(v: u16): (b: bytes)
    ensures |b| == 2 && Get16(b, 0) == v
  {
    [v / 0x100, v % 0x100]
  }

  function Get32(s: bytes, off: nat): u32
    requires off + 4 <= |s|
  {
    Get16(s, off) as int * 0x1_0000 + Get16(s, off + 2)
  }

  function Put32(v: u32): (b: bytes)
    ensures |b| == 4 && Get32(b, 0) == v
  {
    Put16(v / 0x1_0000) + Put16(v % 0x1_0000)
  }

  /** `s` with the window starting at `off` overwritten by `b`. */
  function Splice(s: bytes, off: nat, b: bytes): (r: bytes)
    requires off + |b| <= |s|
    ensures |r| == |s|
    ensures forall i :: 0 <= i < |s| ==> r[i] == if off <= i < off + |b| then b[i - off] else s[i]
  {
    s[..off] + b + s[off + |b|..]
  }

  /** The window of `n` bytes at `off`. */
  function At(s: bytes, off: nat, n: nat): (w: bytes)
    requires off + n <= |s|
    ensures |w| == n && forall i :: 0 <= i < n ==> w[i] == s[off + i]
  {
    s[off..off + n]
  }

  lemma Get16At(s: bytes, off: nat, n: nat, k: nat)
    requires off + n <= |s| && k + 2 <= n
    ensures Get16(At(s, off, n), k) == Get16(s, off + k)
  {
  }

  lemma Get32At(s: bytes, off: nat, n: nat, k: nat)
    requires off + n <= |s| && k + 4 <= n
    ensures Get32(At(s, off, n), k) == Get32(s, off + k)
  {
  }

  lemma SpliceHit(s: bytes, off: nat, b: bytes)
    requires off + |b| <= |s|
    ensures At(Splice(s, off, b), off, |b|) == b
  {
  }

  lemma SpliceMiss(s: bytes, off: nat, b: bytes, lo: nat, n: nat)
    requires off + |b| <= |s| && lo + n <= |s|
    requires lo + n <= off || off + |b| <= lo
    ensures At(Splice(s, off, b), lo, n) == At(s, lo, n)
  {
  }

  lemma AtAt(s: bytes, off: nat, n: nat, lo: nat, m: nat)
    requires off + n <= |s| && lo + m <= n
    ensures At(At(s, off, n), lo, m) == At(s, off + lo, m)
  {
  }

  lemma AtSplit(s: bytes, off: nat, n: nat, m: nat)
    requires off + n + m <= |s|
    ensures At(s, off, n + m) == At(s, off, n) + At(s, off + n, m)
  {
  }

  function Repeat(b: byte, n: nat): (r: bytes)
    ensures |r| == n && forall i :: 0 <= i < n ==> r[i] == b
  {
    seq(n, _ => b)
  }

  lemma SpliceOneMore(s: bytes, off: nat, b: byte, n: nat)
    requires off + n < |s|
    ensures Splice(Splice(s, off, Repeat(b, n)), off + n, [b]) == Splice(s, off, Repeat(b, n + 1))
  {
  }

  function Min(a: int, b: int): int {
    if a < b then a else b
  }
}
