/** Which outcome the framed hooks count for which packet, and what they report: each verdict with its
    exact condition on the bytes of the frame, the configuration and the helper calls. */
module FramedVerdicts {
  import opened Bytes
  import opened Layout
  import opened Kernel
  import opened Hooks
  import opened Stats
  import opened Wire
  import opened Reports
  import opened FramedSpec
  import opened FramedLaws

  // ----- The frame ----------------------------------------------------------------------------

  /** A whole UDP payload of at least 24 bytes. */
  predicate LongPayload(f: bytes) {
    WholeUdpHeader(f) && WholePayload(f) && UdpLength(f) >= 32
  }

  /** The payload starts with the magic number and the version. */
  predicate StartsWithMagic(f: bytes)
    requires LongPayload(f)
  {
    Field(f, UdpAt(f) + 8, 4) == 0x45424146 && f[UdpAt(f) + 12] == 1
  }

  /** The length of what follows the 24 header bytes. */
  function BodyBytes(f: bytes): nat
    requires LongPayload(f)
  {
    UdpLength(f) - 32
  }

  /** The header declares what follows, which is not empty. */
  predicate DeclaresBody(f: bytes)
    requires LongPayload(f)
  {
    Field(f, UdpAt(f) + 14, 2) == BodyBytes(f) && BodyBytes(f) > 0
  }

  /** The packet is addressed to the configured port. */
  predicate ToPort(f: bytes, config: Option<CryptoConfig>) {
    WholeUdpHeader(f) && config.Some? && UdpPort(f) == config.value.udpPort
  }

  lemma PayloadRead(f: bytes)
    requires WholeUdpHeader(f)
    ensures WholePayload(f) <==> UdpLen(f) >= UDP_BYTES && PayloadOff(f) + UdpLen(f) - UDP_BYTES <= |f|
    ensures LongPayload(f) <==> WholePayload(f) && UdpLen(f) - UDP_BYTES >= HEADER_BYTES
    ensures LongPayload(f) ==>
              && HasHeader(f) && BodyBytes(f) == UdpLen(f) - UDP_BYTES - HEADER_BYTES
              && (StartsWithMagic(f) <==> Magic(f) == MAGIC && Version(f) == VERSION)
              && Action(f) == f[UdpAt(f) + 13]
              && (DeclaresBody(f) <==> DeclaredLen(f) == BodyBytes(f) && BodyBytes(f) != 0)
  {
    UdpRead(f);
    if LongPayload(f) {
      Field4(f, UdpAt(f) + 8);
      Field2(f, UdpAt(f) + 14);
    }
    hide Field, Get16, Get32;
  }

  lemma HeadersRead(f: bytes)
    ensures |f| >= 14 ==> (CarriesIp(f) <==> EthProto(f) == ETH_P_IP)
    ensures |f| >= 34 ==> (IsFragment(f) <==> Fragmented(f)) && Protocol(f) == f[23]
    ensures WholeIpHeader(f) <==> |f| >= 34 && EthProto(f) == ETH_P_IP && Ihl(f) >= 5 && |f| >= UdpOff(f)
    ensures WholeUdpHeader(f) <==> WholeIpHeader(f) && Protocol(f) == IPPROTO_UDP && |f| >= PayloadOff(f)
    ensures WholeUdpHeader(f) ==> HeadersFit(f) && UdpPort(f) == UdpDest(f)
  {
    if |f| >= 14 {
      EthernetRead(f);
    }
    if |f| >= 34 {
      IpRead(f);
      if WholeUdpHeader(f) {
        UdpRead(f);
      }
    }
    hide Field, Get16;
  }

  // ----- tc_crypto ----------------------------------------------------------------------------

  /** A whole IP header of an unfragmented packet. */
  predicate TcIp(f: bytes) {
    WholeIpHeader(f) && !IsFragment(f)
  }

  /** An unfragmented packet for the configured port, under an AES-CBC configuration. */
  predicate TcPort(f: bytes, config: Option<CryptoConfig>) {
    TcIp(f) && ToPort(f, config) && CbcAction(config.value)
  }

  /** ... with a payload that starts like a framed one. */
  predicate TcHeader(f: bytes, config: Option<CryptoConfig>) {
    TcPort(f, config) && LongPayload(f) && StartsWithMagic(f) && f[UdpAt(f) + 13] == 1
  }

  /** ... and holds a body of whole blocks as declared. */
  predicate TcAccepts(f: bytes, config: Option<CryptoConfig>) {
    TcHeader(f, config) && DeclaresBody(f) && BodyBytes(f) % 16 == 0
  }

  /** The context is found, the windows are set up and the kfunc takes the body and succeeds. */
  predicate Ciphers(slot: Slot, o: Oracle, n: nat) {
    && slot.Held? && o.dynptr.from && o.dynptr.cloneBody && o.dynptr.adjustBody && o.dynptr.cloneIv
    && o.dynptr.adjustIv && o.kfunc.ok && (slot.cipher.algo == 2 || n % 16 == 0)
  }

  lemma TcRefusedMeans(f: bytes, config: Option<CryptoConfig>)
    ensures var v := TcRefused(f, config);
            && (v == None <==> TcPort(f, config))
            && (v == Some(Bad(BadEth)) <==> |f| < 14)
            && (v == Some(Bad(BadIp)) <==> CarriesIp(f) && !TcIp(f))
            && (v == Some(Bad(BadUdp)) <==> TcIp(f) && f[23] == 17 && !WholeUdpHeader(f))
            && (v == Some(Fail) <==> TcIp(f) && WholeUdpHeader(f) && config.None?)
            && (v == Some(Pass) <==>
                  || (|f| >= 14 && !CarriesIp(f))
                  || (TcIp(f) && f[23] != 17)
                  || (TcIp(f) && WholeUdpHeader(f) && config.Some?
                      && !(CbcAction(config.value) && ToPort(f, config))))
  {
    HeadersRead(f);
    hide Field, Get16, UdpDest, UdpPort;
  }

  /** What `tc_crypto` makes of a frame before it looks for the context. */
  lemma TcAdmittedMeans(f: bytes, config: Option<CryptoConfig>)
    ensures var a := TcAdmitted(f, config);
            && (a.Admit? <==> TcAccepts(f, config)) && (a.Admit? ==> a.n == BodyBytes(f))
            && (a == Stop(Bad(BadUdp)) <==>
                  || (TcIp(f) && f[23] == 17 && !WholeUdpHeader(f))
                  || (TcPort(f, config) && !WholePayload(f)))
            && (a == Stop(Bad(BadLength)) <==>
                  || (TcPort(f, config) && WholePayload(f) && !LongPayload(f))
                  || (TcHeader(f, config) && !DeclaresBody(f)))
            && (a == Stop(Bad(BadMagic)) <==> TcPort(f, config) && LongPayload(f) && !TcHeader(f, config))
            && (a == Stop(Bad(BadAlignment)) <==>
                  TcHeader(f, config) && DeclaresBody(f) && BodyBytes(f) % 16 != 0)
            && a != Stop(Bad(NoCtx))
            && (forall v :: v in {Bad(BadEth), Bad(BadIp), Fail, Pass}
                  ==> (a == Stop(v) <==> TcRefused(f, config) == Some(v)))
            && (a.Stop? ==> a.verdict in {Bad(BadEth), Bad(BadIp), Fail, Pass, Bad(BadUdp), Bad(BadLength),
                                          Bad(BadMagic), Bad(BadAlignment)})
  {
    TcRefusedMeans(f, config);
    if WholeUdpHeader(f) {
      PayloadRead(f);
    }
    hide TcRefused, Field, Get16, Get32, UdpLen, Magic, Version, Action, DeclaredLen, CarriesIp, WholeIpHeader,
         UdpDest, UdpPort, UdpLength, HasHeader, WholePayload, StartsWithMagic, DeclaresBody;
  }

  /** What a framed run counts for an accepted packet. */
  lemma TransformMeans(f: bytes, n: nat, cfg: CryptoConfig, slot: Slot, o: Oracle)
    requires HasBody(f, n)
    ensures var v := Transform(f, n, cfg, slot, o).verdict;
            && (v == Bad(NoCtx) <==> !slot.Held?)
            && (v == Done <==> Ciphers(slot, o, n) && (cfg.action == 1 || cfg.action == 2))
            && (v == Fail <==> slot.Held? && !(Ciphers(slot, o, n) && (cfg.action == 1 || cfg.action == 2)))
  {
    hide KfuncFrame, Splice, At;
  }

  /** What `tc_crypto` counts for every packet; one that it does not accept is left alone. */
  lemma TcVerdict(f: bytes, config: Option<CryptoConfig>, slot: Slot, o: Oracle)
    ensures !TcAccepts(f, config) ==> TcRun(f, config, slot, o).frame == f && TcRun(f, config, slot, o).event.None?
    ensures var v := TcRun(f, config, slot, o).verdict;
            && (v == Bad(BadEth) <==> |f| < 14)
            && (v == Bad(BadIp) <==> CarriesIp(f) && !TcIp(f))
            && (v == Bad(BadUdp) <==>
                  || (TcIp(f) && f[23] == 17 && !WholeUdpHeader(f))
                  || (TcPort(f, config) && !WholePayload(f)))
            && (v == Bad(BadLength) <==>
                  || (TcPort(f, config) && WholePayload(f) && !LongPayload(f))
                  || (TcHeader(f, config) && !DeclaresBody(f)))
            && (v == Bad(BadMagic) <==> TcPort(f, config) && LongPayload(f) && !TcHeader(f, config))
            && (v == Bad(BadAlignment) <==> TcHeader(f, config) && DeclaresBody(f) && BodyBytes(f) % 16 != 0)
            && (v == Bad(NoCtx) <==> TcAccepts(f, config) && !slot.Held?)
            && (v == Done <==> TcAccepts(f, config) && Ciphers(slot, o, BodyBytes(f)))
            && (v == Fail <==>
                  || (TcIp(f) && WholeUdpHeader(f) && config.None?)
                  || (TcAccepts(f, config) && slot.Held? && !Ciphers(slot, o, BodyBytes(f))))
            && (v == Pass <==>
                  || (|f| >= 14 && !CarriesIp(f))
                  || (TcIp(f) && f[23] != 17)
                  || (TcIp(f) && WholeUdpHeader(f) && config.Some?
                      && !(CbcAction(config.value) && ToPort(f, config))))
  {
    TcRefusedMeans(f, config);
    TcAdmittedMeans(f, config);
    TcNesting(f, config);
    hide TcRefused, TcAdmitted, Transform, Ciphers, DeclaresBody, TcAccepts, TcHeader, TcPort, TcIp, CarriesIp, ToPort,
         WholeUdpHeader, WholePayload, LongPayload, BodyBytes;
    if TcAdmitted(f, config).Admit? {
      TransformMeans(f, BodyBytes(f), config.value, slot, o);
    }
  }

  lemma TcNesting(f: bytes, config: Option<CryptoConfig>)
    ensures TcAccepts(f, config) ==> TcHeader(f, config) && DeclaresBody(f) && BodyBytes(f) % 16 == 0
    ensures TcHeader(f, config) ==> TcPort(f, config) && LongPayload(f) && WholePayload(f)
    ensures TcPort(f, config) ==>
              && TcIp(f) && WholeUdpHeader(f) && f[23] == 17 && ToPort(f, config) && config.Some?
              && CbcAction(config.value) && (config.value.action == 1 || config.value.action == 2)
    ensures TcIp(f) ==> CarriesIp(f) && |f| >= 34
  {
    hide Field;
  }

  // ----- xdp_crypto ---------------------------------------------------------------------------

  /** A packet for the configured port with a payload that starts like a framed one. */
  predicate XdpHeader(f: bytes, config: Option<CryptoConfig>) {
    ToPort(f, config) && LongPayload(f) && StartsWithMagic(f)
  }

  /** ... and holds a body as declared, of whole blocks in CBC mode. */
  predicate XdpAccepts(f: bytes, config: Option<CryptoConfig>) {
    XdpHeader(f, config) && DeclaresBody(f) && (config.value.algo == 1 ==> BodyBytes(f) % 16 == 0)
  }

  lemma XdpRefusedMeans(f: bytes, config: Option<CryptoConfig>)
    ensures var v := XdpRefused(f, config);
            && (v == None <==> ToPort(f, config))
            && (v == Some(Bad(BadEth)) <==> |f| < 14)
            && (v == Some(Bad(BadIp)) <==> CarriesIp(f) && !WholeIpHeader(f))
            && (v == Some(Bad(BadUdp)) <==> WholeIpHeader(f) && f[23] == 17 && !WholeUdpHeader(f))
            && (v == Some(Fail) <==> WholeUdpHeader(f) && config.None?)
            && (v == Some(Pass) <==>
                  || (|f| >= 14 && !CarriesIp(f))
                  || (WholeIpHeader(f) && f[23] != 17)
                  || (WholeUdpHeader(f) && config.Some? && !ToPort(f, config)))
  {
    HeadersRead(f);
    hide Field, Get16, UdpDest, UdpPort;
  }

  /** What `xdp_crypto` makes of a frame before it looks for the context. */
  lemma XdpAdmittedMeans(f: bytes, config: Option<CryptoConfig>)
    ensures var a := XdpAdmitted(f, config);
            && (a.Admit? <==> XdpAccepts(f, config)) && (a.Admit? ==> a.n == BodyBytes(f))
            && (a == Stop(Bad(BadUdp)) <==>
                  || (WholeIpHeader(f) && f[23] == 17 && !WholeUdpHeader(f))
                  || (ToPort(f, config) && !WholePayload(f)))
            && (a == Stop(Bad(BadLength)) <==>
                  || (ToPort(f, config) && WholePayload(f) && !LongPayload(f))
                  || (XdpHeader(f, config) && !DeclaresBody(f)))
            && (a == Stop(Bad(BadMagic)) <==> ToPort(f, config) && LongPayload(f) && !XdpHeader(f, config))
            && (a == Stop(Bad(BadAlignment)) <==>
                  XdpHeader(f, config) && DeclaresBody(f) && config.value.algo == 1 && BodyBytes(f) % 16 != 0)
            && (forall v :: v in {Bad(BadEth), Bad(BadIp), Fail, Pass}
                  ==> (a == Stop(v) <==> XdpRefused(f, config) == Some(v)))
            && (a.Stop? ==> a.verdict in {Bad(BadEth), Bad(BadIp), Fail, Pass, Bad(BadUdp), Bad(BadLength),
                                          Bad(BadMagic), Bad(BadAlignment)})
  {
    XdpRefusedMeans(f, config);
    if WholeUdpHeader(f) {
      PayloadRead(f);
    }
    hide XdpRefused, Field, Get16, Get32, UdpLen, Magic, Version, Action, DeclaredLen, CarriesIp, WholeIpHeader,
         UdpDest, UdpPort, UdpLength, HasHeader, WholePayload, StartsWithMagic, DeclaresBody;
  }

  /** What `xdp_crypto` counts for every packet; one that it does not accept is left alone. */
  lemma XdpVerdict(f: bytes, config: Option<CryptoConfig>, slot: Slot, o: Oracle)
    ensures !XdpAccepts(f, config) ==> XdpRun(f, config, slot, o).frame == f && XdpRun(f, config, slot, o).event.None?
    ensures var v := XdpRun(f, config, slot, o).verdict;
            && (v == Bad(BadEth) <==> |f| < 14)
            && (v == Bad(BadIp) <==> CarriesIp(f) && !WholeIpHeader(f))
            && (v == Bad(BadUdp) <==>
                  || (WholeIpHeader(f) && f[23] == 17 && !WholeUdpHeader(f))
                  || (ToPort(f, config) && !WholePayload(f)))
            && (v == Bad(BadLength) <==>
                  || (ToPort(f, config) && WholePayload(f) && !LongPayload(f))
                  || (XdpHeader(f, config) && !DeclaresBody(f)))
            && (v == Bad(BadMagic) <==> ToPort(f, config) && LongPayload(f) && !XdpHeader(f, config))
            && (v == Bad(BadAlignment) <==>
                  XdpHeader(f, config) && DeclaresBody(f) && config.value.algo == 1 && BodyBytes(f) % 16 != 0)
            && (v == Bad(NoCtx) <==> XdpAccepts(f, config) && !slot.Held?)
            && (v == Done <==>
                  && XdpAccepts(f, config) && Ciphers(slot, o, BodyBytes(f))
                  && (config.value.action == 1 || config.value.action == 2))
            && (v == Fail <==>
                  || (WholeUdpHeader(f) && config.None?)
                  || (XdpAccepts(f, config) && slot.Held?
                      && !(Ciphers(slot, o, BodyBytes(f)) && (config.value.action == 1 || config.value.action == 2))))
            && (v == Pass <==>
                  || (|f| >= 14 && !CarriesIp(f))
                  || (WholeIpHeader(f) && f[23] != 17)
                  || (WholeUdpHeader(f) && config.Some? && !ToPort(f, config)))
  {
    XdpRefusedMeans(f, config);
    XdpAdmittedMeans(f, config);
    XdpNesting(f, config);
    hide XdpRefused, XdpAdmitted, Transform, Ciphers, DeclaresBody, XdpAccepts, XdpHeader, CarriesIp, ToPort,
         WholeIpHeader, WholeUdpHeader, WholePayload, LongPayload, BodyBytes;
    if XdpAdmitted(f, config).Admit? {
      TransformMeans(f, BodyBytes(f), config.value, slot, o);
    }
  }

  lemma XdpNesting(f: bytes, config: Option<CryptoConfig>)
    ensures XdpAccepts(f, config) ==>
              && XdpHeader(f, config) && DeclaresBody(f) && (config.value.algo == 1 ==> BodyBytes(f) % 16 == 0)
    ensures XdpHeader(f, config) ==> ToPort(f, config) && LongPayload(f) && WholePayload(f)
    ensures ToPort(f, config) ==> WholeUdpHeader(f) && f[23] == 17 && config.Some?
    ensures WholeUdpHeader(f) ==> WholeIpHeader(f) && f[23] == 17
    ensures WholeIpHeader(f) ==> CarriesIp(f) && |f| >= 34
  {
    hide Field;
  }

  // ----- Events -------------------------------------------------------------------------------

  /** What the kfunc makes of the `n` body bytes: the body follows 24 header bytes, of which the last
      16 are the IV. */
  function Ciphered(f: bytes, n: nat, cfg: CryptoConfig, c: Kernel.Cipher): bytes
    requires WholeUdpHeader(f) && |f| >= UdpAt(f) + 32 + n
  {
    var at := UdpAt(f) + 32;
    c.Run(if cfg.action == 1 then Encrypt else Decrypt, f[at - 16..at], f[at..at + n])
  }

  lemma TransformReports(f: bytes, n: nat, cfg: CryptoConfig, slot: Slot, o: Oracle)
    requires HasBody(f, n) && WholeUdpHeader(f) && UdpLength(f) == 32 + n && n <= 0xFFFF
    requires Transform(f, n, cfg, slot, o).event.Some?
    ensures slot.Held? && |f| >= UdpAt(f) + 32 + n && o.event.reserve
    ensures Describes(Transform(f, n, cfg, slot, o).event.value, f, cfg, Ciphered(f, n, cfg, slot.cipher),
                      SampleBytes(n, 32))
  {
    hide *;
    DoneWhenReported(f, n, cfg, slot, o);
    TransformFrame(f, n, cfg, slot, o);
    BodyAt(f, n, cfg, slot.cipher);
    var g := Transform(f, n, cfg, slot, o).frame;
    OnlyBodyKeeps(f, g, n);
    WindowIs(f, g, n);
    EventReports(f, g, n + 24, UdpAt(f) + 32, cfg, o.event.(loads := 32), Ciphered(f, n, cfg, slot.cipher));
  }

  lemma WindowIs(f: bytes, g: bytes, n: nat)
    requires HasBody(f, n) && |g| == |f| && WholeUdpHeader(f)
    ensures UdpAt(f) == UdpOff(f) && BodyOff(f) == UdpAt(f) + 32 && |g| >= UdpAt(f) + 32 + n
    ensures At(g, BodyOff(f), n) == g[UdpAt(f) + 32..UdpAt(f) + 32 + n]
  {
    IpRead(f);
  }

  lemma DoneWhenReported(f: bytes, n: nat, cfg: CryptoConfig, slot: Slot, o: Oracle)
    requires HasBody(f, n) && Transform(f, n, cfg, slot, o).event.Some?
    ensures var r := Transform(f, n, cfg, slot, o);
            && r.verdict == Done && o.event.reserve
            && r.event == EventOf(r.frame, UdpOff(f), n + 24, n, BodyOff(f), cfg, o.event.(loads := 32))
  {
    hide RunCipher, EventOf;
  }

  lemma BodyAt(f: bytes, n: nat, cfg: CryptoConfig, c: Kernel.Cipher)
    requires HasBody(f, n) && WholeUdpHeader(f) && DirectionOf(cfg).Some?
    ensures BodyOff(f) == UdpAt(f) + 32 && |f| >= UdpAt(f) + 32 + n
    ensures Ciphered(f, n, cfg, c)
         == c.Run(DirectionOf(cfg).value, At(f, IvOff(f), IV_BYTES), At(f, BodyOff(f), n))
  {
    IpRead(f);
    var at := UdpAt(f) + 32;
    assert At(f, IvOff(f), IV_BYTES) == f[at - 16..at] && At(f, BodyOff(f), n) == f[at..at + n];
  }

  lemma OnlyBodyKeeps(f: bytes, g: bytes, n: nat)
    requires HasBody(f, n) && OnlyBodyAndChecksum(f, g, n) && WholeUdpHeader(f)
    ensures |g| == |f| && UdpAt(f) + 8 <= |g|
    ensures g[26..34] == f[26..34] && g[UdpAt(f)..UdpAt(f) + 4] == f[UdpAt(f)..UdpAt(f) + 4]
  {
    IpRead(f);
  }

  /** The events of both framed hooks report their packet, with the first 32 bytes of what the cipher
      made of the body. */
  lemma TcReports(f: bytes, cfg: CryptoConfig, slot: Slot, o: Oracle)
    requires TcRun(f, Some(cfg), slot, o).event.Some?
    ensures slot.Held? && LongPayload(f)
    ensures Describes(TcRun(f, Some(cfg), slot, o).event.value, f, cfg,
                      Ciphered(f, BodyBytes(f), cfg, slot.cipher), SampleBytes(BodyBytes(f), 32))
  {
    TcAdmittedMeans(f, Some(cfg));
    UdpLengthFits(f);
    hide TcAdmitted, Transform, Field, Ciphered;
    TransformReports(f, BodyBytes(f), cfg, slot, o);
  }

  lemma XdpReports(f: bytes, cfg: CryptoConfig, slot: Slot, o: Oracle)
    requires XdpRun(f, Some(cfg), slot, o).event.Some?
    ensures slot.Held? && LongPayload(f)
    ensures Describes(XdpRun(f, Some(cfg), slot, o).event.value, f, cfg,
                      Ciphered(f, BodyBytes(f), cfg, slot.cipher), SampleBytes(BodyBytes(f), 32))
  {
    XdpAdmittedMeans(f, Some(cfg));
    UdpLengthFits(f);
    hide XdpAdmitted, Transform, Field, Ciphered;
    TransformReports(f, BodyBytes(f), cfg, slot, o);
  }
}
