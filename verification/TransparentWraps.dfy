/** What follows when a 16-bit IP total length wraps during encryption. */
module TransparentWraps {
  import opened Bytes
  import opened Checksum
  import opened Layout
  import opened Kernel
  import opened Hooks
  import opened Stats
  import opened TransparentSpec
  import opened TransparentRoundTrip

  // ----- One frame whose length wraps ---------------------------------------------------------

  /** A datagram of 15 zero bytes for port 7777 that claims an IP total length of `ipLen`. */
  function ExampleFrame(ipLen: u16): (f: bytes)
    ensures |f| == 57 && Get16(f, IP_LEN_AT) == ipLen
  {
    Repeat(0, 12) + Put16(ETH_P_IP) + [0x45, 0] + Put16(ipLen) + [0, 0, 0, 0, 64, IPPROTO_UDP]
    + Repeat(0, 12) + Put16(DEFAULT_UDP_PORT) + Put16(23) + Repeat(0, 17)
  }

  /** AES-CBC for port 7777. */
  function ExampleConfig(action: u32): CryptoConfig {
    CryptoConfig(Repeat(0, MAX_KEY_BYTES), AES128_KEY_BYTES, action, ALGO_CBC_AES, F_TRANSPARENT, DEFAULT_UDP_PORT)
  }

  lemma ExampleIsSealable(ipLen: u16)
    ensures Sealable(ExampleFrame(ipLen), ExampleConfig(ACTION_ENCRYPT), 15)
    ensures Peers(ExampleConfig(ACTION_ENCRYPT), ExampleConfig(ACTION_DECRYPT))
    ensures Get16(ExampleFrame(ipLen), IP_CHECK_AT) == 0
  {
    var f := ExampleFrame(ipLen);
    assert f[12..14] == Put16(ETH_P_IP) && f[14] == 0x45 && f[20] == f[21] == 0 && f[23] == IPPROTO_UDP;
    assert f[36..38] == Put16(DEFAULT_UDP_PORT) && f[38..40] == Put16(23);
  }

  /** The silent wrap: this packet is encrypted without complaint, with an IP total length of 24 on
      the wire, and decryption leaves it so and records a failure after `crypto_ok`. */
  lemma SilentWrap(slot: Slot, o: Oracle, o': Oracle)
    requires slot.Held? && AllSucceed(o) && AllSucceed(o')
    ensures var f := ExampleFrame(0xFFFF);
            var e := Run(f, Some(ExampleConfig(ACTION_ENCRYPT)), slot, o);
            var d := Run(e.frame, Some(ExampleConfig(ACTION_DECRYPT)), slot, o');
            && e.verdict == Done && d.verdict == DoneThenFail
            && |d.frame| == |f| && Payload(d.frame, 15) == Payload(f, 15)
            && Get16(f, IP_LEN_AT) == 0xFFFF && Get16(d.frame, IP_LEN_AT) == 24
            && Get16(f, UDP_LEN_AT) == 23 && Get16(d.frame, UDP_LEN_AT) == 48
  {
    hide Run, ExampleFrame, Sealable, Peers, Sealed, Opened, Payload, Delta, Get16;
    var f := ExampleFrame(0xFFFF);
    var enc, dec := ExampleConfig(ACTION_ENCRYPT), ExampleConfig(ACTION_DECRYPT);
    ExampleIsSealable(0xFFFF);
    SealableFacts(f, 15, enc, dec);
    DeltaOfFifteen();
    RunSeals(f, 15, enc, slot, o);
    var e := Run(f, Some(enc), slot, o);
    DecryptOpens(f, 15, e.frame, dec, slot, IvOf(o.now), o');
    WrappedHeaders(f, 15, e.frame, Run(e.frame, Some(dec), slot, o'), slot.cipher, IvOf(o.now));
  }

  lemma DeltaOfFifteen()
    ensures Delta(15) == 25
  {
  }

  lemma SealableFacts(f: bytes, n: nat, enc: CryptoConfig, dec: CryptoConfig)
    requires Sealable(f, enc, n) && Peers(enc, dec)
    ensures enc.action == ACTION_ENCRYPT && dec.action == ACTION_DECRYPT && Ready(f, dec, n)
    ensures |f| >= PAYLOAD_OFF + n && Get16(f, UDP_LEN_AT) == UDP_BYTES + n <= 1416
  {
    assert Get16(f, UDP_LEN_AT) == UdpLen(f);
  }

  /** The headers that a decrypting run leaves when the IP length had wrapped. */
  lemma WrappedHeaders(f: bytes, n: nat, g: bytes, d: Outcome, c: Kernel.Cipher, iv: bytes)
    requires Sealed(f, n, g, c, iv) && Opened(f, n, g, d.verdict, d.frame)
    requires Get16(f, IP_LEN_AT) + Delta(n) > 0xFFFF && Get16(f, UDP_LEN_AT) == UDP_BYTES + n <= 1416
    ensures d.verdict == DoneThenFail && |d.frame| == |f| && Payload(d.frame, n) == Payload(f, n)
    ensures |d.frame| >= PAYLOAD_OFF && Get16(d.frame, IP_LEN_AT) == Get16(f, IP_LEN_AT) + Delta(n) - 0x1_0000
    ensures Get16(d.frame, UDP_LEN_AT) == Get16(f, UDP_LEN_AT) + Delta(n)
  {
    DeltaSmall(n);
    assert |g| >= PAYLOAD_OFF && HeadersMoved(f, g, Delta(n), true);
    hide Payload, Sealed, HeadersBack, PadLen, Delta;
    assert Get16(d.frame, IP_LEN_AT) == Get16(g, IP_LEN_AT) && Get16(d.frame, UDP_LEN_AT) == Get16(g, UDP_LEN_AT);
    MovedLengths(f, g, Delta(n));
    hide Get16, HeadersMoved, Opened;
  }

  lemma DeltaSmall(n: nat)
    ensures 25 <= Delta(n) <= 40
  {
  }

  lemma MovedLengths(f: bytes, g: bytes, delta: nat)
    requires |f| >= PAYLOAD_OFF && |g| >= PAYLOAD_OFF && HeadersMoved(f, g, delta, true) && delta <= 40
    ensures Get16(f, IP_LEN_AT) + delta > 0xFFFF ==> Get16(g, IP_LEN_AT) == Get16(f, IP_LEN_AT) + delta - 0x1_0000
    ensures Get16(f, UDP_LEN_AT) + delta <= 0xFFFF ==> Get16(g, UDP_LEN_AT) == Get16(f, UDP_LEN_AT) + delta
  {
    hide Get16, CsumReplace;
  }

  // ----- Lengths never rise again -------------------------------------------------------------

  lemma SubtractNeverRaises(f: bytes, delta: nat, o: LengthOracle, v: Verdict)
    requires |f| >= PAYLOAD_OFF
    ensures Get16(UpdateLengths(f, delta, false, o, v).frame, IP_LEN_AT) <= Get16(f, IP_LEN_AT)
  {
    if UpdateLengths(f, delta, false, o, v).frame != f {
      SubtractStores(f, delta, o, v);
    }
  }

  lemma SubtractStores(f: bytes, delta: nat, o: LengthOracle, v: Verdict)
    requires |f| >= PAYLOAD_OFF && o.loadIp && o.loadUdp
    requires Get16(f, IP_LEN_AT) >= delta && Get16(f, UDP_LEN_AT) >= delta
    ensures Get16(UpdateLengths(f, delta, false, o, v).frame, IP_LEN_AT) <= Get16(f, IP_LEN_AT)
  {
    var len := Get16(f, IP_LEN_AT);
    hide CsumReplace, Moved;
    StoredIpLength(f, len, Moved(len, delta, false), Moved(Get16(f, UDP_LEN_AT), delta, false), o, v);
    MovedDown(len, delta);
  }

  lemma MovedDown(len: u16, delta: nat)
    requires delta <= len
    ensures Moved(len, delta, false) <= len
  {
  }

  lemma StoredIpLength(f: bytes, ipLen: u16, newIp: u16, newUdp: u16, o: LengthOracle, v: Verdict)
    requires |f| >= PAYLOAD_OFF
    ensures var g := UpdateStored(f, ipLen, newIp, newUdp, o, v).frame;
            Get16(g, IP_LEN_AT) == newIp || Get16(g, IP_LEN_AT) == Get16(f, IP_LEN_AT)
  {
    hide CsumReplace;
  }

  lemma CryptedKeepsFirst42(f: bytes, b: nat, d: Direction, slot: Slot, o: Oracle)
    requires PAYLOAD_OFF + b + HEADER_BYTES <= |f|
    ensures forall i :: 0 <= i < PAYLOAD_OFF ==> Crypted(f, b, d, slot, o).frame[i] == f[i]
  {
    hide IvOf;
  }

  lemma FinishNeverRaises(f: bytes, b: nat, o: Oracle)
    requires |f| >= PAYLOAD_OFF + b + HEADER_BYTES && b > 0
    ensures |Finish(f, b, o).frame| >= PAYLOAD_OFF
    ensures Get16(Finish(f, b, o).frame, IP_LEN_AT) <= Get16(f, IP_LEN_AT)
  {
    hide UpdateLengths;
    var strip := StripLen(f[PAYLOAD_OFF + b - 1], b);
    if strip.Some? {
      var delta := strip.value + HEADER_BYTES;
      SubtractNeverRaises(Resized(f, |f| - delta, o.fill), delta, o.lengths, DoneThenFail);
    }
  }

  /** No decrypting run raises the IP total length, whatever the frame and the helpers. */
  lemma DecryptNeverRaises(f: bytes, cfg: CryptoConfig, slot: Slot, o: Oracle)
    requires |f| >= PAYLOAD_OFF && cfg.action == ACTION_DECRYPT
    ensures |Run(f, Some(cfg), slot, o).frame| >= PAYLOAD_OFF
    ensures Get16(Run(f, Some(cfg), slot, o).frame, IP_LEN_AT) <= Get16(f, IP_LEN_AT)
  {
    hide Crypted, Finish;
    match Admitted(f, Some(cfg))
    case Stop(_) =>
    case Admit(n) =>
      if CheckTail(f, n, o).Go? {
        var b := n - HEADER_BYTES;
        CryptedKeepsFirst42(f, b, Decrypt, slot, o);
        var t := Crypted(f, b, Decrypt, slot, o);
        if t.Go? {
          FinishNeverRaises(t.frame, b, o);
        }
      }
  }

  /** A frame shorter than its UDP length says is refused and left alone. */
  lemma OverlongIsRefused(f: bytes, g: bytes, n: nat, cfg: CryptoConfig, slot: Slot, o: Oracle)
    requires Ready(f, cfg, n) && PAYLOAD_OFF <= |g| < PAYLOAD_OFF + n
    requires forall i :: 0 <= i < PAYLOAD_OFF && i != 40 && i != 41 ==> g[i] == f[i]
    ensures Run(g, Some(cfg), slot, o) == Outcome(g, Bad(BadUdp), None)
  {
    assert Ihl(g) == 5 && UdpOff(g) == 34 && EthProto(g) == EthProto(f) && Get16(g, 20) == Get16(f, 20);
    assert UdpDest(g) == Get16(g, 36) == Get16(f, 36) == UdpDest(f);
    assert UdpLen(g) == Get16(g, 38) == Get16(f, 38) == UdpLen(f);
  }
}
