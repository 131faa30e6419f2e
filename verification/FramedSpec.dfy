/** Framed mode on values: the admission rules of the two hooks, written out separately because
    they are two programs, and the transformation both end in. */
module FramedSpec {
  import opened Bytes
  import opened Layout
  import opened Kernel
  import opened Stats
  import opened Hooks

  datatype Oracle = Oracle(dynptr: DynptrOracle, kfunc: KfuncOracle, event: EventOracle)

  // ----- Admission ----------------------------------------------------------------------------

  /** The exit `tc_crypto` takes before it reads the UDP length, if any. */
  function TcRefused(f: bytes, config: Option<CryptoConfig>): (v: Option<Verdict>)
    ensures v.None? ==> config.Some? && HeadersFit(f) && Ihl(f) >= 5
  {
    if |f| < ETH_BYTES then Some(Bad(BadEth))
    else if EthProto(f) != ETH_P_IP then Some(Pass)
    else if |f| < ETH_BYTES + IP_BYTES || Ihl(f) < 5 then Some(Bad(BadIp))
    else if |f| < UdpOff(f) then Some(Bad(BadIp))
    else if Fragmented(f) then Some(Bad(BadIp))
    else if Protocol(f) != IPPROTO_UDP then Some(Pass)
    else if |f| < PayloadOff(f) then Some(Bad(BadUdp))
    else if config.None? then Some(Fail)
    else if !ValidAction(config.value) || config.value.algo != ALGO_CBC_AES then Some(Pass)
    else if UdpDest(f) != config.value.udpPort then Some(Pass)
    else None
  }

  /** `tc_crypto` up to the IV copy; an admitted frame has `n` body bytes. */
  function TcAdmitted(f: bytes, config: Option<CryptoConfig>): (a: Admission)
    ensures a.Admit? ==> config.Some? && HasBody(f, a.n) && a.n % BLOCK_BYTES == 0
  {
    var v := TcRefused(f, config);
    if v.Some? then Stop(v.value)
    else if UdpLen(f) < UDP_BYTES || PayloadOff(f) + UdpLen(f) - UDP_BYTES > |f| then Stop(Bad(BadUdp))
    else if UdpLen(f) - UDP_BYTES < HEADER_BYTES then Stop(Bad(BadLength))
    else if Magic(f) != MAGIC || Version(f) != VERSION || Action(f) != ACTION_ENCRYPT then Stop(Bad(BadMagic))
    else
      var n := UdpLen(f) - UDP_BYTES - HEADER_BYTES;
      if DeclaredLen(f) != n || n == 0 then Stop(Bad(BadLength))
      else if n % BLOCK_BYTES != 0 then Stop(Bad(BadAlignment))
      else Admit(n)
  }

  /** The exit `xdp_crypto` takes before it reads the UDP length, if any. It looks at no fragment
      field, and not at the action and algorithm of the configuration. */
  function XdpRefused(f: bytes, config: Option<CryptoConfig>): (v: Option<Verdict>)
    ensures v.None? ==> config.Some? && HeadersFit(f) && Ihl(f) >= 5
  {
    if |f| < ETH_BYTES then Some(Bad(BadEth))
    else if EthProto(f) != ETH_P_IP then Some(Pass)
    else if |f| < ETH_BYTES + IP_BYTES || Ihl(f) < 5 then Some(Bad(BadIp))
    else if |f| < UdpOff(f) then Some(Bad(BadIp))
    else if Protocol(f) != IPPROTO_UDP then Some(Pass)
    else if |f| < PayloadOff(f) then Some(Bad(BadUdp))
    else if config.None? then Some(Fail)
    else if UdpDest(f) != config.value.udpPort then Some(Pass)
    else None
  }

  /** `xdp_crypto` up to the IV copy. It looks at the algorithm of the configuration only when it
      must, and at no action byte in the frame. */
  function XdpAdmitted(f: bytes, config: Option<CryptoConfig>): (a: Admission)
    ensures a.Admit? ==> config.Some? && HasBody(f, a.n)
  {
    var v := XdpRefused(f, config);
    if v.Some? then Stop(v.value)
    else if UdpLen(f) < UDP_BYTES || PayloadOff(f) + UdpLen(f) - UDP_BYTES > |f| then Stop(Bad(BadUdp))
    else if UdpLen(f) - UDP_BYTES < HEADER_BYTES then Stop(Bad(BadLength))
    else if Magic(f) != MAGIC || Version(f) != VERSION then Stop(Bad(BadMagic))
    else
      var n := UdpLen(f) - UDP_BYTES - HEADER_BYTES;
      if DeclaredLen(f) != n || n == 0 then Stop(Bad(BadLength))
      else if config.value.algo == ALGO_CBC_AES && n % BLOCK_BYTES != 0 then Stop(Bad(BadAlignment))
      else Admit(n)
  }

  predicate ValidAction(cfg: CryptoConfig) {
    cfg.action == ACTION_ENCRYPT || cfg.action == ACTION_DECRYPT
  }

  // The EBAF header at the start of the UDP payload.

  predicate HasHeader(f: bytes) {
    HeadersFit(f) && |f| >= PayloadOff(f) + HEADER_BYTES
  }

  function Magic(f: bytes): u32
    requires HasHeader(f)
  {
    Get32(f, PayloadOff(f))
  }

  function Version(f: bytes): byte
    requires HasHeader(f)
  {
    f[PayloadOff(f) + 4]
  }

  function Action(f: bytes): byte
    requires HasHeader(f)
  {
    f[PayloadOff(f) + 5]
  }

  function DeclaredLen(f: bytes): u16
    requires HasHeader(f)
  {
    Get16(f, PayloadOff(f) + 6)
  }

  function IvOff(f: bytes): nat
    requires HasHeader(f)
  {
    PayloadOff(f) + IV_OFFSET
  }

  function BodyOff(f: bytes): nat
    requires HasHeader(f)
  {
    PayloadOff(f) + HEADER_BYTES
  }

  /** IV window, then body window of `n` bytes, disjoint and inside the frame, behind the UDP
      header. */
  predicate HasBody(f: bytes, n: nat) {
    && HasHeader(f) && n > 0 && Ihl(f) >= 5
    && UdpOff(f) + UDP_BYTES <= IvOff(f) && IvOff(f) + IV_BYTES <= BodyOff(f) && BodyOff(f) + n <= |f|
  }

  // ----- The transformation -------------------------------------------------------------------

  predicate WindowsSucceed(o: Oracle) {
    o.dynptr == DynptrOracle(true, true, true, true, true)
  }

  /** The kfunc the configuration asks for, if any. */
  function DirectionOf(cfg: CryptoConfig): Option<Direction> {
    if cfg.action == ACTION_ENCRYPT then Some(Encrypt)
    else if cfg.action == ACTION_DECRYPT then Some(Decrypt)
    else None
  }

  datatype Ciphered = Ciphered(frame: bytes, ok: bool)

  /** The kfunc, and on success the UDP checksum and the saved IV. A configuration with no direction
      counts as a kfunc failure. */
  function RunCipher(f: bytes, n: nat, cfg: CryptoConfig, c: Cipher, o: KfuncOracle): (r: Ciphered)
    requires HasBody(f, n)
    ensures |r.frame| == |f|
  {
    match DirectionOf(cfg)
    case None => Ciphered(f, false)
    case Some(d) =>
      var g := KfuncFrame(f, c, d, BodyOff(f), n, IvOff(f), o);
      if !KfuncSucceeds(c, n, o) then Ciphered(g, false) else
      Ciphered(Splice(Splice(g, UdpOff(f) + 6, [0, 0]), IvOff(f), At(f, IvOff(f), IV_BYTES)), true)
  }

  /** Everything after admission: context, windows, cipher, event. */
  function Transform(f: bytes, n: nat, cfg: CryptoConfig, slot: Slot, o: Oracle): (r: Outcome)
    requires HasBody(f, n)
    ensures |r.frame| == |f|
  {
    if !slot.Held? then Outcome(f, Bad(NoCtx), None) else
    if !WindowsSucceed(o) then Outcome(f, Fail, None) else
    var r := RunCipher(f, n, cfg, slot.cipher, o.kfunc);
    if !r.ok then Outcome(r.frame, Fail, None) else
    Outcome(r.frame, Done, FramedEvent(r.frame, UdpOff(f), n, BodyOff(f), cfg, o.event))
  }

  /** The sample of a framed event is read through the packet pointer, which never fails. */
  function FramedEvent(h: bytes, udpOff: nat, n: nat, bodyOff: nat, cfg: CryptoConfig, o: EventOracle)
    : (e: Option<Event>)
    requires ETH_BYTES + IP_BYTES <= udpOff && udpOff + UDP_BYTES <= |h| && bodyOff + n <= |h|
  {
    EventOf(h, udpOff, n + HEADER_BYTES, n, bodyOff, cfg, o.(loads := EVENT_SAMPLE_BYTES))
  }

  /** One run of `tc_crypto`. */
  function TcRun(f: bytes, config: Option<CryptoConfig>, slot: Slot, o: Oracle): (r: Outcome)
    ensures |r.frame| == |f|
  {
    match TcAdmitted(f, config)
    case Stop(v) => Outcome(f, v, None)
    case Admit(n) => Transform(f, n, config.value, slot, o)
  }

  /** One run of `xdp_crypto`. */
  function XdpRun(f: bytes, config: Option<CryptoConfig>, slot: Slot, o: Oracle): (r: Outcome)
    ensures |r.frame| == |f|
  {
    match XdpAdmitted(f, config)
    case Stop(v) => Outcome(f, v, None)
    case Admit(n) => Transform(f, n, config.value, slot, o)
  }
}
