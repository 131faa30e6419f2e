/** The framed hooks as they work: the frame is transformed in place in a fixed buffer. Proved
    against `FramedSpec`. */
module FramedHooks {
  import opened Bytes
  import opened Layout
  import opened Kernel
  import opened Stats
  import opened FramedSpec

  /** The sample loop of `emit_crypto_event`: it stops at the end of the body or of the packet. */
  method CopySample(skb: Packet, dataLen: nat, off: nat, o: EventOracle) returns (n: byte, sample: array<byte>)
    requires off + dataLen <= skb.data.Length
    ensures n == Min(EVENT_SAMPLE_BYTES, dataLen)
    ensures fresh(sample) && SampleHolds(sample[..], skb.data[..], off, n, o)
  {
    sample := new byte[EVENT_SAMPLE_BYTES](i requires i >= 0 => o.memory(i));
    ghost var f := skb.data[..];
    SampleNone(sample[..], f, off, o);
    hide SampleHolds;
    n := 0;
    while n < EVENT_SAMPLE_BYTES
      invariant n <= EVENT_SAMPLE_BYTES && n <= dataLen
      invariant SampleHolds(sample[..], f, off, n, o)
    {
      if n >= dataLen || off + n + 1 > skb.data.Length {
        break;
      }
      ghost var was := sample[..];
      SampleMore(was, f, off, n, o);
      sample[n] := skb.data[off + n];
      assert sample[..] == was[n := f[off + n]];
      n := n + 1;
    }
  }

  /** `emit_crypto_event`. */
  method EmitCryptoEvent(skb: Packet, ring: EventRing, udp: nat, payloadLen: nat, dataLen: nat, off: nat,
                         cfg: CryptoConfig, o: EventOracle)
    requires ETH_BYTES + IP_BYTES <= udp && udp + UDP_BYTES <= skb.data.Length
    requires off + dataLen <= skb.data.Length
    modifies ring
    ensures var e := EventOf(skb.data[..], udp, payloadLen, dataLen, off, cfg, o.(loads := EVENT_SAMPLE_BYTES));
            ring.events == old(ring.events) + (if e.Some? then [e.value] else [])
  {
    if !o.reserve {
      return;
    }
    var n, sample := CopySample(skb, dataLen, off, o);
    SameRest(n, o);
    hide SampleRest, Get16, Get32;
    var f := skb.data[..];
    ring.Submit(Event(Get32(f, 26), Get32(f, 30), Get16(f, udp), Get16(f, udp + 2),
                      payloadLen % 0x1_0000, dataLen % 0x1_0000, cfg.action % 0x100, cfg.algo % 0x100,
                      n, sample[..]));
    assert skb.data[..] == f;
  }

  lemma SameRest(n: nat, o: EventOracle)
    requires n <= EVENT_SAMPLE_BYTES
    ensures SampleRest(n, o.(loads := EVENT_SAMPLE_BYTES)) == SampleRest(n, o)
  {
  }

  /** The context lookup and the two dynptr windows. */
  method SetUpWindows(stats: CpuStats?, slot: Slot, end: nat, bodyOff: nat, n: nat, ivOff: nat, o: DynptrOracle)
    returns (ok: bool, body: Dynptr, iv: Dynptr)
    requires bodyOff + n <= end && ivOff + IV_BYTES <= end
    modifies stats
    ensures ok <==> slot.Held? && o == DynptrOracle(true, true, true, true, true)
    ensures ok ==> body == Dynptr(bodyOff, n) && iv == Dynptr(ivOff, IV_BYTES)
    ensures stats != null ==>
              stats.s == if ok then old(stats.s) else Settle(old(stats.s), if slot.Held? then Fail else Bad(NoCtx))
  {
    hide Bump;
    ok, body, iv := false, Dynptr(0, 0), Dynptr(0, 0);
    if slot.NoSlot? {
      StatBad(stats, NoCtx);
      return;
    }
    if slot.EmptySlot? {
      StatBad(stats, NoCtx);
      return;
    }
    if !o.from {
      StatInc(stats, CryptoFail);
      return;
    }
    var pkt := Dynptr(0, end);
    if !o.cloneBody {
      StatInc(stats, CryptoFail);
      return;
    }
    var bodyPtr := pkt.Adjust(bodyOff, bodyOff + n, o.adjustBody);
    if bodyPtr.None? {
      StatInc(stats, CryptoFail);
      return;
    }
    if !o.cloneIv {
      StatInc(stats, CryptoFail);
      return;
    }
    var ivPtr := pkt.Adjust(ivOff, ivOff + IV_BYTES, o.adjustIv);
    if ivPtr.None? {
      StatInc(stats, CryptoFail);
      return;
    }
    return true, bodyPtr.value, ivPtr.value;
  }

  /** The kfunc for the configured action, and what follows its success. */
  method RunCipherInPlace(skb: Packet, udp: nat, n: nat, savedIv: bytes, body: Dynptr, iv: Dynptr,
                          cfg: CryptoConfig, c: Cipher, o: KfuncOracle) returns (rc: int)
    requires HasBody(skb.data[..], n) && udp == UdpOff(skb.data[..])
    requires savedIv == At(skb.data[..], IvOff(skb.data[..]), IV_BYTES)
    requires body == Dynptr(BodyOff(skb.data[..]), n) && iv == Dynptr(IvOff(skb.data[..]), IV_BYTES)
    modifies skb.data
    ensures var r := RunCipher(old(skb.data[..]), n, cfg, c, o);
            skb.data[..] == r.frame && (rc == 0 <==> r.ok)
  {
    hide KfuncFrame, KfuncSucceeds, Splice, At;
    rc := -1;
    if cfg.action == ACTION_ENCRYPT {
      rc := skb.Crypt(c, Encrypt, body, iv, o);
    } else if cfg.action == ACTION_DECRYPT {
      rc := skb.Crypt(c, Decrypt, body, iv, o);
    }
    if rc == 0 {
      RestoreInPlace(skb, udp, iv.off, savedIv);
    }
  }

  lemma BodyOffsets(f: bytes, n: nat)
    requires HasBody(f, n)
    ensures HasHeader(f) && UdpOff(f) >= ETH_BYTES + IP_BYTES
    ensures IvOff(f) == UdpOff(f) + UDP_BYTES + IV_OFFSET && BodyOff(f) == UdpOff(f) + UDP_BYTES + HEADER_BYTES
    ensures BodyOff(f) + n <= |f|
  {
  }

  /** Both programs from the IV copy to the end. `udp` and `n` are what admission left in the local
      variables. */
  method TransformInPlace(skb: Packet, stats: CpuStats?, ring: EventRing, udp: nat, n: nat,
                          cfg: CryptoConfig, slot: Slot, o: Oracle)
    requires HasBody(skb.data[..], n) && udp == UdpOff(skb.data[..])
    modifies skb.data, stats, ring
    ensures var r := Transform(old(skb.data[..]), n, cfg, slot, o);
            && skb.data[..] == r.frame
            && (stats != null ==> stats.s == Settle(old(stats.s), r.verdict))
            && ring.events == old(ring.events) + (if r.event.Some? then [r.event.value] else [])
  {
    hide Bump, EventOf, RunCipher, Splice, HasBody, HasHeader, HeadersFit, BodyOff, IvOff, UdpOff, PayloadOff;
    ghost var f := skb.data[..];
    BodyOffsets(f, n);
    var payloadOff := udp + UDP_BYTES;
    var bodyOff, ivOff := payloadOff + HEADER_BYTES, payloadOff + IV_OFFSET;
    var savedIv := skb.data[ivOff..ivOff + IV_BYTES];
    assert savedIv == At(f, ivOff, IV_BYTES);
    hide At;
    var ok, body, iv := SetUpWindows(stats, slot, skb.data.Length, bodyOff, n, ivOff, o.dynptr);
    if !ok {
      return;
    }
    var rc := RunCipherInPlace(skb, udp, n, savedIv, body, iv, cfg, slot.cipher, o.kfunc);
    if rc == 0 {
      StatInc(stats, CryptoOk);
      EmitCryptoEvent(skb, ring, udp, n + HEADER_BYTES, n, bodyOff, cfg, o.event);
    } else {
      StatInc(stats, CryptoFail);
    }
  }

  /** `udp->check = 0` and the copy back of the saved IV. */
  method RestoreInPlace(skb: Packet, udp: nat, ivOff: nat, iv: bytes)
    requires udp + 8 <= skb.data.Length && ivOff + |iv| <= skb.data.Length
    modifies skb.data
    ensures skb.data[..] == Splice(Splice(old(skb.data[..]), udp + 6, [0, 0]), ivOff, iv)
  {
    skb.data[udp + 6], skb.data[udp + 7] := 0, 0;
    assert skb.data[..] == Splice(old(skb.data[..]), udp + 6, [0, 0]);
    var _ := skb.StoreBytes(ivOff, iv, true);
  }

  /** The checks of `tc_crypto` up to the port. */
  method TcHeadersInPlace(skb: Packet, stats: CpuStats?, config: Option<CryptoConfig>) returns (go: bool)
    modifies stats
    ensures var v := TcRefused(skb.data[..], config);
            && (go <==> v.None?)
            && (stats != null ==> stats.s == if go then old(stats.s) else Settle(old(stats.s), v.value))
  {
    hide Bump, Get16, Get32;
    go := false;
    var end := skb.data.Length;
    var data := skb.data[..];
    if ETH_BYTES > end {
      StatBad(stats, BadEth);
      return;
    }
    if EthProto(data) != ETH_P_IP {
      StatInc(stats, Passed);
      return;
    }
    if ETH_BYTES + IP_BYTES > end || Ihl(data) < 5 {
      StatBad(stats, BadIp);
      return;
    }
    if ETH_BYTES + Ihl(data) * 4 > end {
      StatBad(stats, BadIp);
      return;
    }
    if Fragmented(data) {
      StatBad(stats, BadIp);
      return;
    }
    if Protocol(data) != IPPROTO_UDP {
      StatInc(stats, Passed);
      return;
    }
    var udp := ETH_BYTES + Ihl(data) * 4;
    if udp + UDP_BYTES > end {
      StatBad(stats, BadUdp);
      return;
    }
    if config.None? {
      StatInc(stats, CryptoFail);
      return;
    }
    var cfg := config.value;
    if (cfg.action != ACTION_ENCRYPT && cfg.action != ACTION_DECRYPT) || cfg.algo != ALGO_CBC_AES {
      StatInc(stats, Passed);
      return;
    }
    if UdpDest(data) != cfg.udpPort {
      StatInc(stats, Passed);
      return;
    }
    go := true;
  }

  /** The checks of `tc_crypto`. The second test of the header against the end of the packet is dead. */
  method TcAdmitInPlace(skb: Packet, stats: CpuStats?, config: Option<CryptoConfig>) returns (go: bool, n: nat)
    modifies stats
    ensures match TcAdmitted(skb.data[..], config) {
              case Stop(v) => !go && (stats != null ==> stats.s == Settle(old(stats.s), v))
              case Admit(m) => go && n == m && (stats != null ==> stats.s == old(stats.s))
            }
  {
    hide Bump, Get16, Get32, TcRefused;
    n := 0;
    go := TcHeadersInPlace(skb, stats, config);
    if !go {
      return;
    }
    go := false;
    var end := skb.data.Length;
    var data := skb.data[..];
    var udp := ETH_BYTES + Ihl(data) * 4;
    var payload := udp + UDP_BYTES;
    var payloadLen: int := UdpLen(data);
    if payloadLen < UDP_BYTES {
      StatBad(stats, BadUdp);
      return;
    }
    payloadLen := payloadLen - UDP_BYTES;
    if payload + payloadLen > end {
      StatBad(stats, BadUdp);
      return;
    }
    if payloadLen < HEADER_BYTES {
      StatBad(stats, BadLength);
      return;
    }
    if payload + HEADER_BYTES > end {
      assert false;
    }
    if Get32(data, payload) != MAGIC || data[payload + 4] != VERSION || data[payload + 5] != ACTION_ENCRYPT {
      StatBad(stats, BadMagic);
      return;
    }
    var bodyLen := payloadLen - HEADER_BYTES;
    if Get16(data, payload + 6) != bodyLen {
      StatBad(stats, BadLength);
      return;
    }
    if bodyLen == 0 {
      StatBad(stats, BadLength);
      return;
    }
    if bodyLen % BLOCK_BYTES != 0 {
      StatBad(stats, BadAlignment);
      return;
    }
    return true, bodyLen;
  }

  /** `tc_crypto`. The packet, the counters and the event ring end exactly as `TcRun` says. */
  method TcCrypto(skb: Packet, stats: CpuStats?, ring: EventRing, config: Option<CryptoConfig>, slot: Slot, o: Oracle)
    modifies skb.data, stats, ring
    ensures var r := TcRun(old(skb.data[..]), config, slot, o);
            && skb.data[..] == r.frame
            && (stats != null ==> stats.s == Record(old(stats.s), r.verdict))
            && ring.events == old(ring.events) + (if r.event.Some? then [r.event.value] else [])
  {
    hide Bump, Settle, Transform;
    StatInc(stats, Seen);
    var go, n := TcAdmitInPlace(skb, stats, config);
    if go {
      TransformInPlace(skb, stats, ring, UdpOff(skb.data[..]), n, config.value, slot, o);
    }
  }

  /** The checks of `xdp_crypto` up to the port. */
  method XdpHeadersInPlace(skb: Packet, stats: CpuStats?, config: Option<CryptoConfig>) returns (go: bool)
    modifies stats
    ensures var v := XdpRefused(skb.data[..], config);
            && (go <==> v.None?)
            && (stats != null ==> stats.s == if go then old(stats.s) else Settle(old(stats.s), v.value))
  {
    hide Bump, Get16, Get32;
    go := false;
    var end := skb.data.Length;
    var data := skb.data[..];
    if ETH_BYTES > end {
      StatBad(stats, BadEth);
      return;
    }
    if EthProto(data) != ETH_P_IP {
      StatInc(stats, Passed);
      return;
    }
    if ETH_BYTES + IP_BYTES > end || Ihl(data) < 5 {
      StatBad(stats, BadIp);
      return;
    }
    if ETH_BYTES + Ihl(data) * 4 > end {
      StatBad(stats, BadIp);
      return;
    }
    if Protocol(data) != IPPROTO_UDP {
      StatInc(stats, Passed);
      return;
    }
    var udp := ETH_BYTES + Ihl(data) * 4;
    if udp + UDP_BYTES > end {
      StatBad(stats, BadUdp);
      return;
    }
    if config.None? {
      StatInc(stats, CryptoFail);
      return;
    }
    var cfg := config.value;
    if UdpDest(data) != cfg.udpPort {
      StatInc(stats, Passed);
      return;
    }
    go := true;
  }

  /** The checks of `xdp_crypto`. The second test of the header against the end of the packet is dead. */
  method XdpAdmitInPlace(skb: Packet, stats: CpuStats?, config: Option<CryptoConfig>) returns (go: bool, n: nat)
    modifies stats
    ensures match XdpAdmitted(skb.data[..], config) {
              case Stop(v) => !go && (stats != null ==> stats.s == Settle(old(stats.s), v))
              case Admit(m) => go && n == m && (stats != null ==> stats.s == old(stats.s))
            }
  {
    hide Bump, Get16, Get32, XdpRefused;
    n := 0;
    go := XdpHeadersInPlace(skb, stats, config);
    if !go {
      return;
    }
    go := false;
    var end := skb.data.Length;
    var data := skb.data[..];
    var cfg := config.value;
    var udp := ETH_BYTES + Ihl(data) * 4;
    var payload := udp + UDP_BYTES;
    var payloadLen: int := UdpLen(data);
    if payloadLen < UDP_BYTES {
      StatBad(stats, BadUdp);
      return;
    }
    payloadLen := payloadLen - UDP_BYTES;
    if payload + payloadLen > end {
      StatBad(stats, BadUdp);
      return;
    }
    if payloadLen < HEADER_BYTES {
      StatBad(stats, BadLength);
      return;
    }
    if payload + HEADER_BYTES > end {
      assert false;
    }
    if Get32(data, payload) != MAGIC || data[payload + 4] != VERSION {
      StatBad(stats, BadMagic);
      return;
    }
    var bodyLen := payloadLen - HEADER_BYTES;
    if Get16(data, payload + 6) != bodyLen {
      StatBad(stats, BadLength);
      return;
    }
    if bodyLen == 0 {
      StatBad(stats, BadLength);
      return;
    }
    if cfg.algo == ALGO_CBC_AES && bodyLen % BLOCK_BYTES != 0 {
      StatBad(stats, BadAlignment);
      return;
    }
    return true, bodyLen;
  }

  /** `xdp_crypto`. The packet, the counters and the event ring end exactly as `XdpRun` says. */
  method XdpCrypto(skb: Packet, stats: CpuStats?, ring: EventRing, config: Option<CryptoConfig>, slot: Slot, o: Oracle)
    modifies skb.data, stats, ring
    ensures var r := XdpRun(old(skb.data[..]), config, slot, o);
            && skb.data[..] == r.frame
            && (stats != null ==> stats.s == Record(old(stats.s), r.verdict))
            && ring.events == old(ring.events) + (if r.event.Some? then [r.event.value] else [])
  {
    hide Bump, Settle, Transform;
    StatInc(stats, Seen);
    var go, n := XdpAdmitInPlace(skb, stats, config);
    if go {
      TransformInPlace(skb, stats, ring, UdpOff(skb.data[..]), n, config.value, slot, o);
    }
  }
}
