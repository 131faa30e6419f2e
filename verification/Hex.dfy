/** Hexadecimal text: the key parser and the sample printer. */
module Hex {
  import opened Bytes
  import opened Layout
  import opened Kernel
  import FramedSpec
  import FramedLaws

  const DIGITS := "0123456789abcdef"

  /** `hex_value`. */
  function HexValue(c: char): (v: int)
    ensures -1 <= v < 16
  {
    if '0' <= c <= '9' then c as int - '0' as int
    else if 'a' <= c <= 'f' then c as int - 'a' as int + 10
    else if 'A' <= c <= 'F' then c as int - 'A' as int + 10
    else -1
  }

  function Digit(v: nat): char
    requires v < 16
  {
    DIGITS[v]
  }

  function Lower(c: char): char {
    if 'A' <= c <= 'F' then c - 'A' + 'a' else c
  }

  predicate IsHex(s: string) {
    |s| % 2 == 0 && forall i :: 0 <= i < |s| ==> HexValue(s[i]) >= 0
  }

  /** Two digits a byte, high half first. */
  function Print(b: bytes): (s: string)
    ensures |s| == 2 * |b|
  {
    if b == [] then [] else Print(b[..|b| - 1]) + [Digit(b[|b| - 1] / 16), Digit(b[|b| - 1] % 16)]
  }

  function Parse(s: string): (b: bytes)
    requires IsHex(s)
    ensures 2 * |b| == |s|
    decreases |s|
  {
    if s == [] then []
    else Parse(s[..|s| - 2]) + [HexValue(s[|s| - 2]) * 16 + HexValue(s[|s| - 1])]
  }

  lemma DigitValue(v: nat)
    requires v < 16
    ensures HexValue(Digit(v)) == v && Lower(Digit(v)) == Digit(v)
  {
  }

  lemma ValueDigit(c: char)
    requires HexValue(c) >= 0
    ensures Digit(HexValue(c)) == Lower(c)
  {
  }

  // ----- In place -----------------------------------------------------------------------------

  /** `ebaf_parse_hex_key`. A refused key may leave the bytes before the bad digit written. */
  method ParseHexKey(hex: Option<string>, out: array?<byte>, n: nat) returns (rc: int)
    requires out != null ==> n <= out.Length
    modifies out
    ensures rc == 0 || rc == -1
    ensures rc == 0 <==> hex.Some? && out != null && |hex.value| == 2 * n && IsHex(hex.value)
    ensures rc == 0 ==> out[..n] == Parse(hex.value)
    ensures out != null ==> forall i :: n <= i < out.Length ==> out[i] == old(out[i])
  {
    if hex.None? || out == null {
      return -1;
    }
    var s := hex.value;
    if |s| != n * 2 {
      return -1;
    }
    hide Parse, HexValue, IsHex, Parsed;
    var i := 0;
    ParsedNone(s);
    while i < n
      invariant 0 <= i <= n
      invariant Parsed(s, i, out[..i])
      invariant forall j :: n <= j < out.Length ==> out[j] == old(out[j])
    {
      var hi, lo := HexValue(s[i * 2]), HexValue(s[i * 2 + 1]);
      if hi < 0 || lo < 0 {
        NotHex(s, if hi < 0 then i * 2 else i * 2 + 1);
        return -1;
      }
      ParsedMore(s, i, out[..i]);
      out[i] := hi * 16 + lo;
      i := i + 1;
      assert out[..i] == out[..i - 1] + [out[i - 1]];
    }
    ParsedAll(s, out[..n]);
    rc := 0;
  }

  /** The first `i` bytes are parsed into `b`. */
  predicate Parsed(s: string, i: nat, b: bytes) {
    2 * i <= |s| && IsHex(s[..2 * i]) && b == Parse(s[..2 * i])
  }

  lemma ParsedNone(s: string)
    ensures Parsed(s, 0, [])
  {
  }

  lemma ParsedMore(s: string, i: nat, b: bytes)
    requires Parsed(s, i, b) && 2 * i + 2 <= |s| && HexValue(s[2 * i]) >= 0 && HexValue(s[2 * i + 1]) >= 0
    ensures Parsed(s, i + 1, b + [HexValue(s[2 * i]) * 16 + HexValue(s[2 * i + 1])])
  {
    hide HexValue, IsHex, Parse;
    ParseTwoMore(s[..2 * i], s[2 * i], s[2 * i + 1]);
    assert s[..2 * (i + 1)] == s[..2 * i] + [s[2 * i], s[2 * i + 1]];
  }

  lemma ParsedAll(s: string, b: bytes)
    requires |s| == 2 * |b| && Parsed(s, |b|, b)
    ensures IsHex(s) && b == Parse(s)
  {
    hide IsHex, Parse;
    assert s[..2 * |b|] == s;
  }

  lemma NotHex(s: string, j: nat)
    requires j < |s| && HexValue(s[j]) < 0
    ensures !IsHex(s)
  {
  }

  /** `format_sample_hex`: at most 32 bytes, whatever the event says, and a terminator. */
  method FormatSampleHex(event: Event, text: array<char>)
    requires |event.sample| == EVENT_SAMPLE_BYTES && text.Length == 2 * EVENT_SAMPLE_BYTES + 1
    modifies text
    ensures var n := Min(event.sampleLen, EVENT_SAMPLE_BYTES);
            && text[..2 * n] == Print(event.sample[..n]) && text[2 * n] == '\0'
            && (forall i :: 2 * n < i < text.Length ==> text[i] == old(text[i]))
  {
    hide Print;
    var n: nat := event.sampleLen;
    if n > EVENT_SAMPLE_BYTES {
      n := EVENT_SAMPLE_BYTES;
    }
    var i := 0;
    while i < n
      invariant i <= n
      invariant text[..2 * i] == Print(event.sample[..i])
      invariant forall j :: 2 * i <= j < text.Length ==> text[j] == old(text[j])
    {
      text[i * 2] := DIGITS[event.sample[i] / 16];
      text[i * 2 + 1] := DIGITS[event.sample[i] % 16];
      PrintMore(event.sample, i);
      assert text[..2 * (i + 1)] == text[..2 * i] + [text[2 * i], text[2 * i + 1]];
      i := i + 1;
    }
    text[n * 2] := '\0';
  }

  lemma PrintMore(b: bytes, i: nat)
    requires i < |b|
    ensures Print(b[..0]) == []
    ensures Print(b[..i + 1]) == Print(b[..i]) + [Digit(b[i] / 16), Digit(b[i] % 16)]
  {
    assert b[..i + 1][..i] == b[..i];
  }

  // ----- Inverses -----------------------------------------------------------------------------

  lemma ParseTwoMore(r: string, hi: char, lo: char)
    requires IsHex(r) && HexValue(hi) >= 0 && HexValue(lo) >= 0
    ensures IsHex(r + [hi, lo])
    ensures Parse(r + [hi, lo]) == Parse(r) + [HexValue(hi) * 16 + HexValue(lo)]
  {
    hide HexValue;
    var s := r + [hi, lo];
    assert s[..|s| - 2] == r;
  }

  lemma ByteOfHalves(v: byte)
    ensures v / 16 < 16 && v % 16 < 16 && v / 16 * 16 + v % 16 == v
  {
  }

  lemma PrintOneMore(b: bytes, v: byte)
    ensures Print(b + [v]) == Print(b) + [Digit(v / 16), Digit(v % 16)]
  {
    assert (b + [v])[..|b|] == b;
  }

  lemma ParsePrintStep(b: bytes, v: byte)
    requires IsHex(Print(b)) && Parse(Print(b)) == b
    ensures IsHex(Print(b + [v])) && Parse(Print(b + [v])) == b + [v]
  {
    hide *;
    ByteOfHalves(v);
    DigitValue(v / 16);
    DigitValue(v % 16);
    PrintOneMore(b, v);
    ParseTwoMore(Print(b), Digit(v / 16), Digit(v % 16));
  }

  lemma NothingRoundTrips()
    ensures Print([]) == [] && IsHex([]) && Parse([]) == [] && Lowered([]) == []
  {
  }

  /** Parsing what was printed gives the bytes back. */
  lemma {:induction false} ParsePrint(b: bytes)
    ensures IsHex(Print(b)) && Parse(Print(b)) == b
    decreases |b|
  {
    hide *;
    if b == [] {
      NothingRoundTrips();
    } else {
      var k := |b| - 1;
      ParsePrint(b[..k]);
      ParsePrintStep(b[..k], b[k]);
      assert b == b[..k] + [b[k]];
    }
  }

  /** The text in lower case. */
  function Lowered(s: string): (r: string)
    ensures |r| == |s| && forall i :: 0 <= i < |s| ==> r[i] == Lower(s[i])
  {
    seq(|s|, i requires 0 <= i < |s| => Lower(s[i]))
  }

  lemma HalvesOfByte(hi: int, lo: int)
    requires 0 <= hi < 16 && 0 <= lo < 16
    ensures (hi * 16 + lo) / 16 == hi && (hi * 16 + lo) % 16 == lo
  {
  }

  lemma PrintParseStep(s: string, hi: char, lo: char)
    requires IsHex(s) && Print(Parse(s)) == Lowered(s) && HexValue(hi) >= 0 && HexValue(lo) >= 0
    ensures IsHex(s + [hi, lo]) && Print(Parse(s + [hi, lo])) == Lowered(s) + [Lower(hi), Lower(lo)]
  {
    hide *;
    ParseTwoMore(s, hi, lo);
    ValueDigit(hi);
    ValueDigit(lo);
    HalvesOfByte(HexValue(hi), HexValue(lo));
    PrintOneMore(Parse(s), HexValue(hi) * 16 + HexValue(lo));
  }

  lemma HexSplits(s: string)
    requires IsHex(s) && s != []
    ensures |s| >= 2 && IsHex(s[..|s| - 2]) && HexValue(s[|s| - 2]) >= 0 && HexValue(s[|s| - 1]) >= 0
    ensures Lowered(s) == Lowered(s[..|s| - 2]) + [Lower(s[|s| - 2]), Lower(s[|s| - 1])]
  {
    hide HexValue, Lower;
  }

  /** Printing what was parsed gives the text back in lower case. */
  lemma {:induction false} PrintParse(s: string)
    requires IsHex(s)
    ensures Print(Parse(s)) == Lowered(s)
    decreases |s|
  {
    hide *;
    if s == [] {
      NothingRoundTrips();
    } else {
      HexSplits(s);
      var k := |s| - 2;
      PrintParse(s[..k]);
      PrintParseStep(s[..k], s[k], s[k + 1]);
      assert s == s[..k] + [s[k], s[k + 1]];
    }
  }

  /** How much of `dataLen` body bytes a sample holds when `loads` of its bytes load. */
  function SampleLen(dataLen: nat, loads: nat): (k: nat)
    ensures k <= dataLen && k <= EVENT_SAMPLE_BYTES
  {
    Min(Min(EVENT_SAMPLE_BYTES, dataLen), loads)
  }

  /** The text of a sample decodes to the first bytes of the body the event was made from: 32 of
      them, or the whole body, or those before the first one that failed to load. */
  lemma SampleDecodes(f: bytes, udpOff: nat, payloadLen: nat, dataLen: nat, off: nat, cfg: CryptoConfig, o: EventOracle)
    requires ETH_BYTES + IP_BYTES <= udpOff && udpOff + UDP_BYTES <= |f| && off + dataLen <= |f|
    requires o.reserve
    ensures var e := EventOf(f, udpOff, payloadLen, dataLen, off, cfg, o).value;
            var text := Print(e.sample[..Min(e.sampleLen, EVENT_SAMPLE_BYTES)]);
            IsHex(text) && Parse(text) == At(f, off, SampleLen(dataLen, o.loads))
  {
    var e := EventOf(f, udpOff, payloadLen, dataLen, off, cfg, o).value;
    ParsePrint(e.sample[..e.sampleLen]);
  }

  /** The sample of a framed event decodes to the start of what the cipher made of the body: of the
      plaintext, for a decrypting run. */
  lemma FramedSampleDecodes(f: bytes, n: nat, cfg: CryptoConfig, slot: Slot, o: FramedSpec.Oracle)
    requires FramedSpec.HasBody(f, n) && o.event.reserve
    requires FramedSpec.Transform(f, n, cfg, slot, o).verdict.Done?
    ensures slot.Held? && FramedSpec.DirectionOf(cfg).Some?
    ensures var r := FramedSpec.Transform(f, n, cfg, slot, o);
            var out := slot.cipher.Run(FramedSpec.DirectionOf(cfg).value, At(f, FramedSpec.IvOff(f), IV_BYTES),
                                       At(f, FramedSpec.BodyOff(f), n));
            && r.event.Some? && |out| == n
            && var e := r.event.value;
               var text := Print(e.sample[..Min(e.sampleLen, EVENT_SAMPLE_BYTES)]);
               IsHex(text) && Parse(text) == out[..Min(EVENT_SAMPLE_BYTES, n)]
  {
    hide FramedSpec.RunCipher, EventOf, Print, Parse;
    var r := FramedSpec.Transform(f, n, cfg, slot, o);
    FramedLaws.TransformFrame(f, n, cfg, slot, o);
    SampleDecodes(r.frame, UdpOff(f), n + HEADER_BYTES, n, FramedSpec.BodyOff(f), cfg,
                  o.event.(loads := EVENT_SAMPLE_BYTES));
  }
}
