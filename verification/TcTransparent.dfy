/** `tc_transparent` as it works: one packet buffer resized and overwritten in place, counters
    bumped on the way, every early exit of the program. Proved against `TransparentSpec.Run`. */
module TcTransparent {
  import opened Bytes
  import opened Checksum
  import opened Layout
  import opened Kernel
  import opened Stats
  import opened TransparentSpec
  import opened TransparentRechecks
  import opened Wire
  import opened Clock
  import opened TransparentVerdicts

  /** `update_lengths` for the Ethernet/IPv4 layout the hook admits. */
  method UpdateLengthsInPlace(skb: Packet, delta: nat, add: bool, o: LengthOracle, ghost v: Verdict) returns (rc: int)
    requires skb.data.Length >= PAYLOAD_OFF
    modifies skb.data
    ensures rc == 0 || rc == -1
    ensures var s := UpdateLengths(old(skb.data[..]), delta, add, o, v);
            skb.data[..] == s.frame && (rc == 0 <==> s.Go?) && (s.Halt? ==> s.verdict == v)
  {
    hide UpdateStored, Get16, Moved;
    var rc1, ipLen := skb.LoadU16(IP_LEN_AT, o.loadIp);
    if rc1 < 0 {
      return -1;
    }
    var rc2, udpLen := skb.LoadU16(UDP_LEN_AT, o.loadUdp);
    if rc2 < 0 {
      return -1;
    }
    var newIp: u16, newUdp: u16;
    if add {
      newIp, newUdp := Moved(ipLen, delta, true), Moved(udpLen, delta, true);
    } else {
      if ipLen < delta || udpLen < delta {
        return -1;
      }
      newIp, newUdp := Moved(ipLen, delta, false), Moved(udpLen, delta, false);
    }
    rc := StoreLengths(skb, ipLen, newIp, newUdp, o, v);
  }

  /** The stores of `update_lengths`. */
  method StoreLengths(skb: Packet, ipLen: u16, newIp: u16, newUdp: u16, o: LengthOracle, ghost v: Verdict)
    returns (rc: int)
    requires skb.data.Length >= PAYLOAD_OFF
    modifies skb.data
    ensures rc == 0 || rc == -1
    ensures var s := UpdateStored(old(skb.data[..]), ipLen, newIp, newUdp, o, v);
            skb.data[..] == s.frame && (rc == 0 <==> s.Go?)
  {
    rc := skb.L3CsumReplace(IP_CHECK_AT, ipLen, newIp, o.csum);
    if rc < 0 {
      return;
    }
    rc := skb.StoreBytes(IP_LEN_AT, Put16(newIp), o.storeIp);
    if rc < 0 {
      return;
    }
    rc := skb.StoreBytes(UDP_LEN_AT, Put16(newUdp), o.storeUdp);
    if rc < 0 {
      return;
    }
    rc := skb.StoreBytes(UDP_CHECK_AT, Put16(0), o.storeCheck);
  }

  /** `fill_iv`. */
  method FillIv(now: u64) returns (iv: array<byte>)
    ensures fresh(iv) && iv[..] == IvOf(now)
    ensures iv.Length == 16 && iv[8..] == iv[..8] && LittleEndian(iv[..8]) == now
  {
    iv := new byte[IV_BYTES];
    for i := 0 to IV_BYTES
      invariant forall j :: 0 <= j < i ==> iv[j] == IvOf(now)[j]
    {
      iv[i] := now / Pow256(i % 8) % 0x100;
    }
    assert iv[..] == IvOf(now);
    ClockTwice(now);
    assert iv[..8] == iv[..][..8] && iv[8..] == iv[..][8..];
  }

  /** The sample loop of `emit_event`: byte by byte, up to the first byte that fails to load. */
  method LoadSample(skb: Packet, dataLen: nat, off: nat, o: EventOracle) returns (n: byte, sample: array<byte>)
    requires off + dataLen <= skb.data.Length
    ensures n == Min(Min(EVENT_SAMPLE_BYTES, dataLen), o.loads)
    ensures fresh(sample) && SampleHolds(sample[..], skb.data[..], off, n, o)
  {
    sample := new byte[EVENT_SAMPLE_BYTES](i requires i >= 0 => o.memory(i));
    ghost var f := skb.data[..];
    SampleNone(sample[..], f, off, o);
    hide SampleHolds;
    n := 0;
    while n < EVENT_SAMPLE_BYTES
      invariant n <= EVENT_SAMPLE_BYTES && n <= dataLen && n <= o.loads
      invariant SampleHolds(sample[..], f, off, n, o)
    {
      if n >= dataLen {
        break;
      }
      var rc, b := skb.LoadBytes(off + n, 1, n < o.loads);
      if rc < 0 {
        break;
      }
      ghost var was := sample[..];
      SampleMore(was, f, off, n, o);
      sample[n] := b[0];
      assert sample[..] == was[n := f[off + n]];
      n := n + 1;
    }
  }

  /** `emit_event`. */
  method EmitEvent(skb: Packet, ring: EventRing, payloadLen: nat, dataLen: nat, off: nat,
                   cfg: CryptoConfig, o: EventOracle)
    requires skb.data.Length >= PAYLOAD_OFF && off + dataLen <= skb.data.Length
    modifies ring
    ensures var e := EventOf(skb.data[..], 34, payloadLen, dataLen, off, cfg, o);
            ring.events == old(ring.events) + (if e.Some? then [e.value] else [])
  {
    hide SampleRest, Get16, Get32;
    if !o.reserve {
      return;
    }
    var n, sample := LoadSample(skb, dataLen, off, o);
    var f := skb.data[..];
    ring.Submit(Event(Get32(f, 26), Get32(f, 30), Get16(f, 34), Get16(f, 36),
                      payloadLen % 0x1_0000, dataLen % 0x1_0000, cfg.action % 0x100, cfg.algo % 0x100,
                      n, sample[..]));
    assert skb.data[..] == f;
  }

  /** The pointer checks the hook repeats after every helper that may move the packet. */
  method Recheck(skb: Packet, need: nat) returns (ok: bool)
    ensures ok <==> RecheckPasses(skb.data[..], need)
    ensures ok <==> skb.data.Length >= 34 && UdpAt(skb.data[..]) + 8 + need <= skb.data.Length
  {
    var n := skb.data.Length;
    if ETH_BYTES > n {
      return false;
    }
    if ETH_BYTES + IP_BYTES > n {
      return false;
    }
    var udp := ETH_BYTES + skb.data[ETH_BYTES] % 16 * 4;
    if udp + UDP_BYTES > n {
      return false;
    }
    ok := udp + UDP_BYTES + need <= n;
  }

  /** The payload bounds, the resize and the padding. */
  method GrowAndPadInPlace(skb: Packet, stats: CpuStats?, n: nat, o: Oracle) returns (go: bool)
    requires skb.data.Length >= PAYLOAD_OFF + n && Ihl(skb.data[..]) == 5
    modifies skb, skb.data, stats
    ensures fresh(skb.data) || skb.data == old(skb.data)
    ensures var s := GrowAndPad(old(skb.data[..]), n, o);
            && skb.data[..] == s.frame && (go <==> s.Go?)
            && (stats != null ==> stats.s == if go then old(stats.s) else Settle(old(stats.s), s.verdict))
  {
    if n == 0 || n > MAX_TRANSPARENT_PAYLOAD {
      StatBad(stats, BadLength);
      return false;
    }
    var padLen := BLOCK_BYTES - n % BLOCK_BYTES;
    if padLen == 0 {
      assert false;
    }
    assert padLen == PadLen(n) && padLen + HEADER_BYTES == Delta(n) && n + padLen == BodyLen(n);
    hide RecheckPasses, Ihl, Delta, BodyLen, Bump;
    ghost var f := skb.data[..];
    GrowRecheck(f, n, 0, o);
    var rc := skb.ChangeTail(skb.data.Length + padLen + HEADER_BYTES, o.grow, o.fill);
    if rc < 0 {
      StatBad(stats, BadLength);
      return false;
    }
    var ok := Recheck(skb, n + padLen + HEADER_BYTES);
    if !ok {
      assert false;
    }
    go := StorePadding(skb, stats, n, padLen, o);
  }

  /** The tail header and the lengths. The exits at the re-checks are dead: they hold on every
      linear packet whose resize succeeded. */
  method StoreTailInPlace(skb: Packet, stats: CpuStats?, bodyLen: u16, delta: nat, o: Oracle) returns (go: bool)
    requires skb.data.Length >= PAYLOAD_OFF + bodyLen + HEADER_BYTES && Ihl(skb.data[..]) == 5
    modifies skb.data, stats
    ensures var s := StoreTail(old(skb.data[..]), bodyLen, delta, o);
            && skb.data[..] == s.frame && (go <==> s.Go?)
            && (stats != null ==> stats.s == if go then old(stats.s) else Settle(old(stats.s), s.verdict))
  {
    hide UpdateLengths, CsumReplace, IvOf, Header, Splice, Bump;
    ghost var g := skb.data[..];
    TailRechecks(g, bodyLen, delta, o);
    var iv := FillIv(o.now);
    var rc := skb.StoreBytes(PAYLOAD_OFF + bodyLen, Header(ACTION_ENCRYPT, bodyLen, iv[..]), o.storeHeader);
    if rc < 0 {
      StatBad(stats, BadMagic);
      return false;
    }
    assert skb.data[..] == WithTail(g, bodyLen, o.now);
    var ok := Recheck(skb, bodyLen + HEADER_BYTES);
    if !ok {
      assert false;
    }
    rc := UpdateLengthsInPlace(skb, delta, true, o.lengths, Bad(BadIp));
    if rc < 0 {
      StatBad(stats, BadIp);
      return false;
    }
    ok := Recheck(skb, bodyLen + HEADER_BYTES);
    if !ok {
      assert false;
    }
    go := true;
  }

  /** The padding loop: one store per byte, any of which may fail. */
  method StorePadding(skb: Packet, stats: CpuStats?, n: nat, padLen: nat, o: Oracle) returns (go: bool)
    requires 1 <= padLen <= BLOCK_BYTES && PAYLOAD_OFF + n + padLen <= skb.data.Length
    modifies skb.data, stats
    ensures go <==> o.padStores >= padLen
    ensures skb.data[..]
         == Splice(old(skb.data[..]), PAYLOAD_OFF + n, Repeat(padLen, if go then padLen else o.padStores))
    ensures stats != null ==> stats.s == if go then old(stats.s) else Bump(Bump(old(stats.s), Malformed), BadUdp)
  {
    hide Splice, Repeat, Bump;
    var i := 0;
    assert skb.data[..] == Splice(skb.data[..], PAYLOAD_OFF + n, Repeat(padLen, 0));
    while i < BLOCK_BYTES
      invariant i <= padLen && i <= o.padStores
      invariant skb.data[..] == Splice(old(skb.data[..]), PAYLOAD_OFF + n, Repeat(padLen, i))
      invariant stats != null ==> stats.s == old(stats.s)
    {
      if i >= padLen {
        break;
      }
      SpliceOneMore(old(skb.data[..]), PAYLOAD_OFF + n, padLen, i);
      var rc := skb.StoreBytes(PAYLOAD_OFF + n + i, [padLen], i < o.padStores);
      if rc < 0 {
        StatBad(stats, BadUdp);
        return false;
      }
      i := i + 1;
    }
    go := true;
  }

  /** The bounds and tail header checks of the decrypting path. */
  method CheckTailInPlace(skb: Packet, stats: CpuStats?, n: nat, o: Oracle) returns (go: bool)
    requires skb.data.Length >= PAYLOAD_OFF + n
    modifies stats
    ensures go <==> o.loadTail && SealedTail(skb.data[..], n)
    ensures var s := CheckTail(skb.data[..], n, o);
            && (go <==> s.Go?)
            && (stats != null ==> stats.s == if go then old(stats.s) else Settle(old(stats.s), s.verdict))
  {
    hide TailFailure, SealedTail, Bump;
    CheckVerdict(skb.data[..], n, o);
    if n < HEADER_BYTES {
      StatBad(stats, BadLength);
      return false;
    }
    var b := n - HEADER_BYTES;
    if PAYLOAD_OFF + b + HEADER_BYTES > skb.data.Length {
      assert false;
    }
    ghost var f := skb.data[..];
    var rc, tail := skb.LoadBytes(PAYLOAD_OFF + b, HEADER_BYTES, o.loadTail);
    if rc < 0 {
      StatInc(stats, CryptoFail);
      return false;
    }
    assert tail == At(f, PAYLOAD_OFF + b, HEADER_BYTES);
    go := CheckHeaderInPlace(stats, tail, b);
  }

  /** The fields of the tail header. */
  method CheckHeaderInPlace(stats: CpuStats?, tail: bytes, b: nat) returns (go: bool)
    requires |tail| == HEADER_BYTES
    modifies stats
    ensures go <==> TailFailure(tail, b).None?
    ensures stats != null ==>
              stats.s == if go then old(stats.s) else Settle(old(stats.s), TailFailure(tail, b).value)
  {
    hide Get16, Get32, Bump;
    if Get32(tail, 0) != MAGIC || tail[4] != VERSION {
      StatBad(stats, BadMagic);
      return false;
    }
    if b == 0 || b % BLOCK_BYTES != 0 {
      StatBad(stats, BadLength);
      return false;
    }
    if Get16(tail, 6) != b {
      StatBad(stats, BadLength);
      return false;
    }
    go := true;
  }

  /** The context lookup and the dynptr windows. */
  method SetUpWindows(stats: CpuStats?, slot: Slot, end: nat, b: nat, o: DynptrOracle)
    returns (ok: bool, body: Dynptr, iv: Dynptr)
    requires PAYLOAD_OFF + b + HEADER_BYTES <= end
    modifies stats
    ensures ok <==> WindowFailure(slot, o).None?
    ensures ok ==> slot.Held? && body == Dynptr(PAYLOAD_OFF, b) && iv == Dynptr(PAYLOAD_OFF + b + IV_OFFSET, IV_BYTES)
    ensures stats != null ==>
              stats.s == if ok then old(stats.s) else Settle(old(stats.s), WindowFailure(slot, o).value)
  {
    hide Bump;
    ok, body, iv := false, Dynptr(0, 0), Dynptr(0, 0);
    if slot.NoSlot? {
      StatBad(stats, NoCtx);
      return;
    }
    if slot.EmptySlot? {
      StatBad(stats, NoCtx);
      return;
    }
    var ivAt := PAYLOAD_OFF + b + IV_OFFSET;
    if !o.from {
      StatBad(stats, BadAlignment);
      return;
    }
    var pkt := Dynptr(0, end);
    if !o.cloneBody {
      StatBad(stats, BadAlignment);
      return;
    }
    var bodyPtr := pkt.Adjust(PAYLOAD_OFF, PAYLOAD_OFF + b, o.adjustBody);
    if bodyPtr.None? {
      StatBad(stats, BadLength);
      return;
    }
    if !o.cloneIv {
      StatBad(stats, BadAlignment);
      return;
    }
    var ivPtr := pkt.Adjust(ivAt, ivAt + IV_BYTES, o.adjustIv);
    if ivPtr.None? {
      StatBad(stats, BadMagic);
      return;
    }
    return true, bodyPtr.value, ivPtr.value;
  }

  /** The context, the windows, the kfunc and the IV. */
  method CryptInPlace(skb: Packet, stats: CpuStats?, b: nat, d: Direction, slot: Slot, o: Oracle) returns (go: bool)
    requires PAYLOAD_OFF + b + HEADER_BYTES <= skb.data.Length
    modifies skb.data, stats
    ensures var s := Crypted(old(skb.data[..]), b, d, slot, o);
            && skb.data[..] == s.frame && (go <==> s.Go?)
            && (stats != null ==> stats.s == if go then old(stats.s) else Settle(old(stats.s), s.verdict))
  {
    hide KfuncFrame, IvOf, Bump, WindowFailure, Splice;
    var ok, body, iv := SetUpWindows(stats, slot, skb.data.Length, b, o.dynptr);
    if !ok {
      return false;
    }
    var rc := skb.Crypt(slot.cipher, d, body, iv, o.kfunc);
    if rc != 0 {
      StatBad(stats, CryptoFail);
      return false;
    }
    if d == Encrypt {
      var saved := FillIv(o.now);
      rc := skb.StoreBytes(iv.off, saved[..], o.restoreIv);
      if rc < 0 {
        StatBad(stats, BadMagic);
        return false;
      }
    }
    go := true;
  }

  /** The padding and the tail come off; `crypto_ok` is counted already. */
  method FinishInPlace(skb: Packet, stats: CpuStats?, b: nat, o: Oracle, ghost was: Stats)
    requires skb.data.Length >= PAYLOAD_OFF + b + HEADER_BYTES && b > 0 && Ihl(skb.data[..]) == 5
    requires stats != null ==> stats.s == Bump(was, CryptoOk)
    modifies skb, skb.data, stats
    ensures var s := Finish(old(skb.data[..]), b, o);
            && skb.data[..] == s.frame
            && (stats != null ==> stats.s == Settle(was, if s.Go? then Done else s.verdict))
  {
    hide UpdateLengths, Bump, CsumReplace, RecheckPasses, Ihl, Splice;
    ghost var f := skb.data[..];
    var rc, pad := skb.LoadBytes(PAYLOAD_OFF + b - 1, 1, o.loadPad);
    if rc < 0 {
      StatInc(stats, CryptoFail);
      return;
    }
    var padLen: nat := pad[0];
    assert padLen == f[PAYLOAD_OFF + b - 1];
    if padLen < 1 || padLen > BLOCK_BYTES || padLen > b {
      StatBad(stats, BadLength);
      return;
    }
    ShrinkRecheck(f, b, padLen, o);
    CutInPlace(skb, stats, padLen + HEADER_BYTES, o);
  }

  /** The cut and the length repair. */
  method CutInPlace(skb: Packet, stats: CpuStats?, delta: nat, o: Oracle)
    requires skb.data.Length - delta >= PAYLOAD_OFF
    requires RecheckPasses(Resized(skb.data[..], skb.data.Length - delta, o.fill), 0)
    modifies skb, skb.data, stats
    ensures var s := Cut(old(skb.data[..]), delta, o);
            && skb.data[..] == s.frame && (s.Halt? ==> s.verdict == DoneThenFail)
            && (stats != null ==> stats.s == if s.Go? then old(stats.s) else Bump(old(stats.s), CryptoFail))
  {
    hide UpdateLengths, Bump, RecheckPasses;
    var rc := skb.ChangeTail(skb.data.Length - delta, o.shrink, o.fill);
    if rc < 0 {
      StatInc(stats, CryptoFail);
      return;
    }
    var ok := Recheck(skb, 0);
    if !ok {
      assert false;
    }
    rc := UpdateLengthsInPlace(skb, delta, false, o.lengths, DoneThenFail);
    if rc < 0 {
      StatInc(stats, CryptoFail);
    }
  }

  /** The checks before anything is changed. */
  method AdmitInPlace(skb: Packet, stats: CpuStats?, config: Option<CryptoConfig>) returns (go: bool, n: nat)
    modifies stats
    ensures go <==> ForHook(skb.data[..], config)
    ensures match Admitted(skb.data[..], config) {
              case Stop(v) => !go && (stats != null ==> stats.s == Settle(old(stats.s), v))
              case Admit(m) => go && n == m && (stats != null ==> stats.s == old(stats.s))
            }
  {
    hide Bump, Get16, ForHook;
    go, n := false, 0;
    var end := skb.data.Length;
    var data := skb.data[..];
    AdmittedMeans(data, config);
    if ETH_BYTES > end {
      StatBad(stats, BadEth);
      return;
    }
    if EthProto(data) != ETH_P_IP {
      StatInc(stats, Passed);
      return;
    }
    if ETH_BYTES + IP_BYTES > end || Ihl(data) != 5 {
      StatBad(stats, BadIp);
      return;
    }
    if ETH_BYTES + Ihl(data) * 4 > end {
      assert false;
    }
    if Fragmented(data) {
      StatBad(stats, BadIp);
      return;
    }
    if Protocol(data) != IPPROTO_UDP {
      StatInc(stats, Passed);
      return;
    }
    var udp := ETH_BYTES + Ihl(data) * 4;
    if udp + UDP_BYTES > end {
      StatBad(stats, BadUdp);
      return;
    }
    if config.None? {
      StatInc(stats, CryptoFail);
      return;
    }
    var cfg := config.value;
    if cfg.algo != ALGO_CBC_AES || (cfg.action != ACTION_ENCRYPT && cfg.action != ACTION_DECRYPT) {
      StatInc(stats, Passed);
      return;
    }
    if UdpDest(data) != cfg.udpPort {
      StatInc(stats, Passed);
      return;
    }
    var payloadLen: int := UdpLen(data);
    if payloadLen < UDP_BYTES {
      StatBad(stats, BadUdp);
      return;
    }
    payloadLen := payloadLen - UDP_BYTES;
    if udp + UDP_BYTES + payloadLen > end {
      StatBad(stats, BadUdp);
      return;
    }
    return true, payloadLen;
  }

  /** `tc_transparent`. The packet, the counters and the event ring end exactly as `Run` says. */
  method TcTransparent(skb: Packet, stats: CpuStats?, ring: EventRing, config: Option<CryptoConfig>,
                       slot: Slot, o: Oracle)
    modifies skb, skb.data, stats, ring
    ensures var r := Run(old(skb.data[..]), config, slot, o);
            && skb.data[..] == r.frame
            && (stats != null ==> stats.s == Record(old(stats.s), r.verdict))
            && ring.events == old(ring.events) + (if r.event.Some? then [r.event.value] else [])
  {
    hide Bump, Settle, GrowAndPad, StoreTail, CheckTail, Crypted, Finish, EventOf;
    StatInc(stats, Seen);
    var go, n := AdmitInPlace(skb, stats, config);
    if !go {
      return;
    }
    var cfg := config.value;
    if cfg.action == ACTION_ENCRYPT {
      EncryptInPlace(skb, stats, ring, cfg, n, slot, o);
    } else {
      DecryptInPlace(skb, stats, ring, cfg, n, slot, o);
    }
  }

  /** Everything before encryption. */
  method PrepareInPlace(skb: Packet, stats: CpuStats?, n: nat, o: Oracle) returns (go: bool)
    requires skb.data.Length >= PAYLOAD_OFF + n && Ihl(skb.data[..]) == 5
    modifies skb, skb.data, stats
    ensures fresh(skb.data) || skb.data == old(skb.data)
    ensures var s := Prepare(old(skb.data[..]), n, o);
            && skb.data[..] == s.frame && (go <==> s.Go?)
            && (stats != null ==> stats.s == if go then old(stats.s) else Settle(old(stats.s), s.verdict))
    ensures go ==> Ihl(skb.data[..]) == 5
  {
    hide GrowAndPad, StoreTail, RecheckPasses, Settle, Ihl;
    ghost var f := skb.data[..];
    go := GrowAndPadInPlace(skb, stats, n, o);
    if !go {
      return;
    }
    var b := n + (BLOCK_BYTES - n % BLOCK_BYTES);
    assert b == BodyLen(n) && b - n + HEADER_BYTES == Delta(n);
    hide BodyLen, Delta, PadLen;
    GrownRecheck(f, n, o);
    TailRechecks(skb.data[..], b, b - n + HEADER_BYTES, o);
    go := StoreTailInPlace(skb, stats, b, b - n + HEADER_BYTES, o);
  }

  method EncryptInPlace(skb: Packet, stats: CpuStats?, ring: EventRing, cfg: CryptoConfig, n: nat,
                        slot: Slot, o: Oracle)
    requires skb.data.Length >= PAYLOAD_OFF + n && Ihl(skb.data[..]) == 5
    modifies skb, skb.data, stats, ring
    ensures var r := EncryptRun(old(skb.data[..]), n, cfg, slot, o);
            && skb.data[..] == r.frame
            && (stats != null ==> stats.s == Settle(old(stats.s), r.verdict))
            && ring.events == old(ring.events) + (if r.event.Some? then [r.event.value] else [])
  {
    hide Prepare, Crypted, EventOf, Bump, RecheckPasses, Ihl;
    var go := PrepareInPlace(skb, stats, n, o);
    if !go {
      return;
    }
    var b := BodyLen(n);
    ghost var p := skb.data[..];
    go := CryptInPlace(skb, stats, b, Encrypt, slot, o);
    if !go {
      return;
    }
    StatInc(stats, CryptoOk);
    CipherRecheck(p, b, Encrypt, slot, o);
    var ok := Recheck(skb, b);
    if !ok {
      assert false;
    }
    EmitEvent(skb, ring, n, b, PAYLOAD_OFF, cfg, o.event);
  }

  method DecryptInPlace(skb: Packet, stats: CpuStats?, ring: EventRing, cfg: CryptoConfig, n: nat,
                        slot: Slot, o: Oracle)
    requires skb.data.Length >= PAYLOAD_OFF + n && Ihl(skb.data[..]) == 5
    modifies skb, skb.data, stats, ring
    ensures var r := DecryptRun(old(skb.data[..]), n, cfg, slot, o);
            && skb.data[..] == r.frame
            && (stats != null ==> stats.s == Settle(old(stats.s), r.verdict))
            && ring.events == old(ring.events) + (if r.event.Some? then [r.event.value] else [])
  {
    hide CheckTail, Crypted, Finish, EventOf, Bump;
    ghost var f := skb.data[..];
    var go := CheckTailInPlace(skb, stats, n, o);
    if !go {
      return;
    }
    var b := n - HEADER_BYTES;
    go := CryptInPlace(skb, stats, b, Decrypt, slot, o);
    if !go {
      return;
    }
    ghost var was := if stats != null then stats.s else Stats(0, 0, 0, 0, 0, 0, 0, 0, 0, 0, 0, 0);
    StatInc(stats, CryptoOk);
    CipherRecheck(f, b, Decrypt, slot, o);
    var ok := Recheck(skb, b);
    if !ok {
      assert false;
    }
    EmitEvent(skb, ring, n, b, PAYLOAD_OFF, cfg, o.event);
    FinishInPlace(skb, stats, b, o, was);
  }
}
