/** One's-complement arithmetic: the full Internet checksum (sections 1 and 2 of RFC 1071), the
    two-fold `checksum` of the demo script, and the incremental update of section 3 of RFC 1624. */
module Checksum {
  import opened Bytes

  /** The sum of the 16-bit words of `s`, an odd last byte being padded with zero on the right. */
  function Sum16(s: bytes): nat {
    if |s| == 0 then 0
    else if |s| == 1 then s[0] as int * 0x100
    else Get16(s, 0) + Sum16(s[2..])
  }

  function FoldOnce(x: nat): nat {
    x % 0x1_0000 + x / 0x1_0000
  }

  /** Folding carries back in until none is left. */
  function FullFold(x: nat): u16 {
    if x < 0x1_0000 then x else FullFold(FoldOnce(x))
  }

  function Complement(x: u16): u16 {
    0xFFFF - x
  }

  /** End-around-carry addition of two 16-bit words. */
  function OnesAdd(a: u16, b: u16): u16 {
    if a + b < 0x1_0000 then a + b else a + b - 0xFFFF
  }

  /** Eqn. 3 in section 3 of RFC 1624: HC' = ~(~HC + ~m + m'). */
  function CsumReplace(hc: u16, from: u16, to: u16): u16 {
    Complement(OnesAdd(OnesAdd(Complement(hc), Complement(from)), to))
  }

  /** The member of 1..0xFFFF that is congruent to `x` modulo 0xFFFF. */
  function Residue(x: int): u16 {
    (x - 1) % 0xFFFF + 1
  }

  /** A member of 1..0xFFFF congruent to `x` is its residue. */
  lemma ResidueUnique(x: int, r: int, k: int)
    requires 1 <= r <= 0xFFFF && x == r + 0xFFFF * k
    ensures Residue(x) == r
  {
  }

  // ----- Folding ----------------------------------------------------------------------------

  /** The folded sum depends on the residue modulo 0xFFFF alone; only zero folds to zero. */
  lemma {:induction false} FullFoldIsResidue(x: nat)
    ensures FullFold(x) == if x == 0 then 0 else Residue(x)
  {
    if x >= 0x1_0000 {
      var y := FoldOnce(x);
      FullFoldIsResidue(y);
      FoldKeepsResidue(x);
    } else if x > 0 {
      ResidueUnique(x, x, 0);
    }
  }

  lemma FoldKeepsResidue(x: nat)
    requires x >= 0x1_0000
    ensures FoldOnce(x) > 0 && Residue(FoldOnce(x)) == Residue(x)
  {
    var y := FoldOnce(x);
    var q: int, r: int := x / 0x1_0000, x % 0x1_0000;
    assert x == 0x1_0000 * q + r && y == q + r;
    ResidueParts(y);
    hide Residue, FoldOnce;
    ResidueUnique(x, Residue(y), q + (y - 1) / 0xFFFF);
  }

  lemma ResidueParts(x: nat)
    requires x > 0
    ensures 1 <= Residue(x) <= 0xFFFF && x == Residue(x) + 0xFFFF * ((x - 1) / 0xFFFF)
  {
  }

  lemma {:induction false} Sum16Bound(s: bytes)
    ensures Sum16(s) <= (|s| + 1) / 2 * 0xFFFF
  {
    if |s| >= 2 {
      Sum16Bound(s[2..]);
    }
  }

  /** Replacing the word at an even offset changes the sum by the difference of the two words. */
  lemma {:induction false} Sum16Splice(s: bytes, off: nat, v: u16)
    requires off % 2 == 0 && off + 2 <= |s|
    ensures Sum16(Splice(s, off, Put16(v))) == Sum16(s) - Get16(s, off) + v
    decreases off
  {
    var r := Splice(s, off, Put16(v));
    if off == 0 {
      assert r[2..] == s[2..];
    } else {
      assert r[2..] == Splice(s[2..], off - 2, Put16(v));
      Sum16Splice(s[2..], off - 2, v);
    }
  }

  // ----- The demo script's checksum ----------------------------------------------------------

  /** What two folds and a 16-bit complement leave. */
  function TwoFoldChecksum(s: bytes): u16 {
    0xFFFF - FoldOnce(FoldOnce(Sum16(s))) % 0x1_0000
  }

  /** `checksum`: pad to an even length, sum, fold exactly twice, complement within 16 bits. */
  method ChecksumTwoFolds(input: bytes) returns (r: u16)
    ensures |input| <= 131076 ==> r == Complement(FullFold(Sum16(input)))
    ensures r == TwoFoldChecksum(input)
  {
    hide Sum16, FullFold;
    var data := input;
    if |data| % 2 != 0 {
      data := data + [0];
      Sum16PadEven(input);
    }
    var total := Sum16(data);
    total := total % 0x1_0000 + total / 0x1_0000;
    total := total % 0x1_0000 + total / 0x1_0000;
    r := 0xFFFF - total % 0x1_0000;
    if |input| <= 131076 {
      TwoFoldsSuffice(input);
    }
  }

  lemma {:induction false} Sum16PadEven(s: bytes)
    requires |s| % 2 == 1
    ensures Sum16(s + [0]) == Sum16(s)
  {
    if |s| == 1 {
      assert (s + [0])[2..] == [];
    } else {
      assert (s + [0])[2..] == s[2..] + [0];
      Sum16PadEven(s[2..]);
    }
  }

  /** Two folds leave no carry on any input of at most 131076 bytes. */
  lemma TwoFoldsSuffice(s: bytes)
    requires |s| <= 131076
    ensures FoldOnce(FoldOnce(Sum16(s))) == FullFold(Sum16(s))
  {
    var x := Sum16(s);
    Sum16Bound(s);
    assert (|s| + 1) / 2 <= 65538;
    assert x <= 65538 * 0xFFFF;
    FullFoldTwice(x);
  }

  lemma FullFoldTwice(x: nat)
    requires x <= 65538 * 0xFFFF
    ensures FullFold(x) == FoldOnce(FoldOnce(x))
  {
    var y := FoldOnce(x);
    assert y <= 0x1_FFFE;
    assert x < 0x1_0000 ==> y == x;
    assert y < 0x1_0000 ==> FoldOnce(y) == y;
  }

  /** The shortest input on which two folds still leave a carry. */
  function OverlongInput(): (s: bytes)
    ensures |s| == 131077
  {
    Repeat(0xFF, 131074) + [0xFF, 0, 1]
  }

  lemma {:induction false} Sum16OfFullWords(n: nat, tail: bytes)
    ensures Sum16(Repeat(0xFF, 2 * n) + tail) == n * 0xFFFF + Sum16(tail)
  {
    var s := Repeat(0xFF, 2 * n) + tail;
    if n == 0 {
      assert s == tail;
    } else {
      assert s[2..] == Repeat(0xFF, 2 * (n - 1)) + tail;
      Sum16OfFullWords(n - 1, tail);
    }
  }

  lemma {:induction false} Sum16ZerosAfter(s: bytes, k: nat)
    ensures Sum16(s + Repeat(0, k)) == Sum16(s)
    decreases |s| + k
  {
    var t := s + Repeat(0, k);
    if |s| >= 2 {
      assert t[2..] == s[2..] + Repeat(0, k);
      Sum16ZerosAfter(s[2..], k);
    } else if |s| + k >= 2 {
      assert t[2..] == [] + Repeat(0, |s| + k - 2);
      Sum16ZerosAfter([], |s| + k - 2);
    }
  }

  /** On this input, and on it with zeros behind it, the value returned is not the checksum. */
  lemma TwoFoldsFailBeyondBound(k: nat)
    ensures TwoFoldChecksum(OverlongInput() + Repeat(0, k)) == 0xFFFF
    ensures Complement(FullFold(Sum16(OverlongInput() + Repeat(0, k)))) == 0xFFFE
  {
    var tail := [0xFF, 0, 1];
    Sum16OfFullWords(65537, tail);
    assert tail[2..] == [1];
    assert Sum16(tail) == 0x1_0000;
    Sum16ZerosAfter(OverlongInput(), k);
    var x := Sum16(OverlongInput() + Repeat(0, k));
    assert x == 0x1_0000_FFFF;
    FullFoldIsResidue(x);
  }

  /** The value returned is the checksum. */
  predicate TwoFoldsCorrect(s: bytes) {
    TwoFoldChecksum(s) == Complement(FullFold(Sum16(s)))
  }

  /** Two folds give the checksum of every input of `n` bytes exactly when `n` is at most 131076. */
  lemma TwoFoldsExactBound(n: nat)
    ensures (forall s: bytes :: |s| == n ==> TwoFoldsCorrect(s)) <==> n <= 131076
  {
    hide Sum16, FullFold, FoldOnce;
    if n <= 131076 {
      forall s: bytes | |s| == n
        ensures TwoFoldsCorrect(s)
      {
        TwoFoldsSuffice(s);
      }
    } else {
      TwoFoldsFailBeyondBound(n - 131077);
      assert !TwoFoldsCorrect(OverlongInput() + Repeat(0, n - 131077));
    }
  }

  lemma SumWithItsComplement(x: nat)
    ensures FullFold(x + Complement(FullFold(x))) == 0xFFFF
  {
    FullFoldIsResidue(x);
    var y := x + Complement(FullFold(x));
    FullFoldIsResidue(y);
    ResidueUnique(y, 0xFFFF, if x == 0 then 0 else (x - 1) / 0xFFFF);
  }

  /** Storing the checksum of a buffer in its zeroed, even-offset field makes the whole buffer
      sum to 0xFFFF (section 1 of RFC 1071). */
  lemma StoredChecksumVerifies(s: bytes, off: nat)
    requires off % 2 == 0 && off + 2 <= |s| <= 131076
    requires Get16(s, off) == 0
    ensures FullFold(Sum16(Splice(s, off, Put16(TwoFoldChecksum(s))))) == 0xFFFF
  {
    hide FullFold, Sum16;
    TwoFoldsSuffice(s);
    Sum16Splice(s, off, TwoFoldChecksum(s));
    SumWithItsComplement(Sum16(s));
  }

  // ----- Incremental update ------------------------------------------------------------------

  /** Updating the checksum of a non-zero sum for one changed word gives, bit for bit, the
      checksum of the new sum. */
  lemma CsumReplaceIsExact(rest: nat, from: u16, to: u16)
    requires rest + from > 0 && rest + to > 0
    ensures CsumReplace(Complement(FullFold(rest + from)), from, to) == Complement(FullFold(rest + to))
  {
    FullFoldIsResidue(rest + from);
    FullFoldIsResidue(rest + to);
    var q := (rest + from - 1) / 0xFFFF;
    var r := Residue(rest + from);
    var a := OnesAdd(r, Complement(from));
    var b := OnesAdd(a, to);
    var k := q + (if r + Complement(from) < 0x1_0000 then -1 else 0) + (if a + to < 0x1_0000 then 0 else 1);
    ResidueUnique(rest + to, b, k);
  }

  /** Replacing a word and replacing it back restores the field exactly when the field was not
      0xFFFF; from 0xFFFF it always ends at zero. */
  lemma CsumReplaceUndone(hc: u16, m: u16, m': u16)
    ensures var back := CsumReplace(CsumReplace(hc, m, m'), m', m);
            back == (if hc == 0xFFFF then 0 else hc)
  {
  }

  function Swap(x: u16): u16 {
    x % 0x100 * 0x100 + x / 0x100
  }

  /** Byte order independence (section 2 of RFC 1071): the helper works on words in memory order,
      which on a little-endian host are the swapped words; the stored field is the same. */
  lemma CsumReplaceByteOrder(hc: u16, m: u16, m': u16)
    ensures CsumReplace(Swap(hc), Swap(m), Swap(m')) == Swap(CsumReplace(hc, m, m'))
  {
    SwapComplement(hc);
    SwapComplement(m);
    var a := OnesAdd(Complement(hc), Complement(m));
    SwapOnesAdd(Complement(hc), Complement(m));
    SwapOnesAdd(a, m');
    SwapComplement(OnesAdd(a, m'));
  }

  lemma SwapComplement(x: u16)
    ensures Swap(Complement(x)) == Complement(Swap(x))
  {
  }

  lemma SwapOfBytes(hi: byte, lo: byte)
    ensures Swap(hi as int * 0x100 + lo) == lo as int * 0x100 + hi
  {
  }

  lemma SwapOnesAdd(a: u16, b: u16)
    ensures Swap(OnesAdd(a, b)) == OnesAdd(Swap(a), Swap(b))
  {
    var ah: int, al: int, bh: int, bl: int := a / 0x100, a % 0x100, b / 0x100, b % 0x100;
    var c0 := if al + bl < 0x100 then 0 else 1;
    var c1 := if ah + bh + c0 < 0x100 then 0 else 1;
    var lo := al + bl - 0x100 * c0 + c1;
    var hi := ah + bh + c0 - 0x100 * c1;
    assert OnesAdd(a, b) == hi * 0x100 + lo;
    if lo < 0x100 {
      SwapOfBytes(hi, lo);
    }
  }
}
