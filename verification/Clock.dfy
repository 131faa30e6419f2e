/** The IV that `fill_iv` makes of the clock, as numbers. */
module Clock {
  import opened Bytes
  import opened Stats
  import opened Wire
  import opened TransparentSpec

  lemma DivDiv(x: nat, p: nat)
    requires p > 0
    ensures 0x100 * p > 0 && x / (0x100 * p) == x / 0x100 / p
  {
    var y := x / 0x100;
    var q, r := y / p, y % p;
    assert x == 0x100 * (p * q + r) + x % 0x100;
    assert x == 0x100 * p * q + (0x100 * r + x % 0x100);
    assert 0x100 * r + x % 0x100 < 0x100 * p;
    QuotientUnique(x, 0x100 * p, q, 0x100 * r + x % 0x100);
  }

  lemma QuotientUnique(x: nat, m: nat, q: nat, r: nat)
    requires m > 0 && x == m * q + r && r < m
    ensures x / m == q
  {
    var d := x / m - q;
    assert m * d == r - x % m;
    Multiples(m, d);
  }

  lemma Multiples(m: nat, d: int)
    ensures d >= 1 ==> m * d >= m
    ensures d <= -1 ==> m * d <= 0 - m
  {
  }

  /** Byte `i` of a number, the least significant being byte 0. */
  function ByteAt(x: nat, i: nat): byte {
    x / Pow256(i) % 0x100
  }

  /** The value of the `k` low bytes of a number. */
  function LowBytes(x: nat, k: nat): nat {
    x % Pow256(k)
  }

  lemma NextByte(x: nat, i: nat)
    ensures ByteAt(x, i + 1) == ByteAt(x / 0x100, i) && ByteAt(x, 0) == x % 0x100
  {
    assert Pow256(i + 1) == 0x100 * Pow256(i);
    DivDiv(x, Pow256(i));
  }

  lemma {:induction false} DigitsAre(x: nat, w: bytes)
    requires forall i :: 0 <= i < |w| ==> w[i] == ByteAt(x, i)
    ensures LittleEndian(w) == LowBytes(x, |w|)
    decreases |w|
  {
    if w != [] {
      var k := |w| - 1;
      hide ByteAt;
      forall i | 0 <= i < k
        ensures w[1..][i] == ByteAt(x / 0x100, i)
      {
        NextByte(x, i);
      }
      DigitsAre(x / 0x100, w[1..]);
      NextByte(x, 0);
      ModSplit(x, Pow256(k));
    }
  }

  lemma ModSplit(x: nat, p: nat)
    requires p > 0
    ensures 0x100 * p > 0 && x % (0x100 * p) == x % 0x100 + 0x100 * (x / 0x100 % p)
  {
    DivDiv(x, p);
    var q := x / 0x100 / p;
    assert x / 0x100 == p * q + x / 0x100 % p;
    assert x == 0x100 * p * q + (x % 0x100 + 0x100 * (x / 0x100 % p));
    assert x == 0x100 * p * (x / (0x100 * p)) + x % (0x100 * p);
  }

  lemma ClockTwice(now: u64)
    ensures var w := IvOf(now)[..8];
            IvOf(now) == w + w && LittleEndian(w) == now
  {
    var iv := IvOf(now);
    var w := iv[..8];
    hide LittleEndian, IvOf, ByteAt, LowBytes;
    IvDigits(now);
    AllEight(now);
    DigitsAre(now, w);
  }

  lemma AllEight(now: u64)
    ensures LowBytes(now, 8) == now
  {
    PowEight();
  }

  lemma PowEight()
    ensures Pow256(8) == 0x1_0000_0000_0000_0000
  {
    assert Pow256(2) == 0x1_0000;
    assert Pow256(4) == 0x1_0000_0000;
    assert Pow256(6) == 0x1_0000_0000_0000;
  }

  lemma IvDigits(now: u64)
    ensures var w := IvOf(now)[..8];
            IvOf(now) == w + w && forall i :: 0 <= i < 8 ==> w[i] == ByteAt(now, i)
  {
    IvBytes(now);
    hide IvOf, ByteAt;
  }

  lemma IvBytes(now: u64)
    ensures forall i :: 0 <= i < 16 ==> IvOf(now)[i] == ByteAt(now, i % 8)
  {
    hide Pow256;
  }
}
