/** Laws of framed mode: what a run may change, when the two hooks agree, and how runs compose. */
module FramedLaws {
  import opened Bytes
  import opened Layout
  import opened Kernel
  import opened Stats
  import opened Hooks
  import opened FramedSpec

  // ----- Frame condition ----------------------------------------------------------------------

  /** `g` differs from `f` in the body window and in the UDP checksum at most. */
  ghost predicate OnlyBodyAndChecksum(f: bytes, g: bytes, n: nat)
    requires HasBody(f, n)
  {
    && |g| == |f|
    && forall i :: 0 <= i < |f| && !(BodyOff(f) <= i < BodyOff(f) + n) && !(UdpOff(f) + 6 <= i < UdpOff(f) + 8)
         ==> g[i] == f[i]
  }

  /** A successful run replaces the body by what the cipher makes of it under the IV in the frame,
      zeroes the UDP checksum, and changes nothing else, although the kfunc may overwrite the IV. */
  lemma TransformFrame(f: bytes, n: nat, cfg: CryptoConfig, slot: Slot, o: Oracle)
    requires HasBody(f, n) && Transform(f, n, cfg, slot, o).verdict == Done
    ensures slot.Held? && DirectionOf(cfg).Some?
    ensures OnlyBodyAndChecksum(f, Transform(f, n, cfg, slot, o).frame, n)
    ensures Get16(Transform(f, n, cfg, slot, o).frame, UdpOff(f) + 6) == 0
    ensures At(Transform(f, n, cfg, slot, o).frame, BodyOff(f), n)
         == slot.cipher.Run(DirectionOf(cfg).value, At(f, IvOff(f), IV_BYTES), At(f, BodyOff(f), n))
  {
    var d := DirectionOf(cfg).value;
    var iv, body := At(f, IvOff(f), IV_BYTES), At(f, BodyOff(f), n);
    var out := slot.cipher.Run(d, iv, body);
    var left := seq<byte>(IV_BYTES, i requires i >= 0 => o.kfunc.iv(i));
    StoresLayout(f, n, out, left);
    hide Splice, At, OnlyBodyAndChecksum, Get16;
    assert Transform(f, n, cfg, slot, o).frame == Stores(f, n, out, left);
  }

  /** The four stores of a successful run: the kfunc's body and IV, the checksum, the saved IV. */
  function Stores(f: bytes, n: nat, out: bytes, left: bytes): bytes
    requires HasBody(f, n) && |out| == n && |left| == IV_BYTES
  {
    var g := Splice(Splice(f, BodyOff(f), out), IvOff(f), left);
    Splice(Splice(g, UdpOff(f) + 6, [0, 0]), IvOff(f), At(f, IvOff(f), IV_BYTES))
  }

  lemma StoresLayout(f: bytes, n: nat, out: bytes, left: bytes)
    requires HasBody(f, n) && |out| == n && |left| == IV_BYTES
    ensures OnlyBodyAndChecksum(f, Stores(f, n, out, left), n)
    ensures Get16(Stores(f, n, out, left), UdpOff(f) + 6) == 0
    ensures At(Stores(f, n, out, left), BodyOff(f), n) == out
  {
  }

  /** When a run does not succeed, the frame is untouched, unless the kfunc itself failed: then what
      changed lies in the body and the IV. */
  lemma TransformFailure(f: bytes, n: nat, cfg: CryptoConfig, slot: Slot, o: Oracle)
    requires HasBody(f, n) && Transform(f, n, cfg, slot, o).verdict != Done
    ensures var g := Transform(f, n, cfg, slot, o).frame;
            && |g| == |f|
            && (g == f || (slot.Held? && !KfuncSucceeds(slot.cipher, n, o.kfunc)))
            && (forall i :: 0 <= i < |f| && !(IvOff(f) <= i < BodyOff(f) + n) ==> g[i] == f[i])
  {
  }

  // ----- Agreement ----------------------------------------------------------------------------

  /** Both hooks read this far: an IPv4 header with its options. */
  predicate ReachesIp(f: bytes) {
    && |f| >= ETH_BYTES + IP_BYTES && EthProto(f) == ETH_P_IP
    && Ihl(f) >= 5 && |f| >= UdpOff(f)
  }

  /** ... this far: a UDP header for the configured port. */
  predicate ReachesPort(f: bytes, config: Option<CryptoConfig>) {
    && ReachesIp(f) && Protocol(f) == IPPROTO_UDP && HeadersFit(f)
    && config.Some? && UdpDest(f) == config.value.udpPort
  }

  /** ... and this far: an EBAF header inside the UDP payload. */
  predicate ReachesHeader(f: bytes, config: Option<CryptoConfig>) {
    && ReachesPort(f, config)
    && UdpLen(f) >= UDP_BYTES + HEADER_BYTES && PayloadOff(f) + UdpLen(f) - UDP_BYTES <= |f|
  }

  /** The inputs on which the two programs were written to differ: fragments, configurations other
      than an AES-CBC action, and frames whose own action byte is not 1. */
  predicate Diverges(f: bytes, config: Option<CryptoConfig>) {
    || (ReachesIp(f) && Fragmented(f))
    || (ReachesPort(f, config) && (!ValidAction(config.value) || config.value.algo != ALGO_CBC_AES))
    || (ReachesHeader(f, config) && Magic(f) == MAGIC && Version(f) == VERSION && Action(f) != ACTION_ENCRYPT)
  }

  /** The two hooks leave the same frame, counters and event exactly when the input is none of
      those on which they were written to differ. */
  lemma HooksAgree(f: bytes, config: Option<CryptoConfig>, slot: Slot, o: Oracle)
    ensures TcRun(f, config, slot, o) == XdpRun(f, config, slot, o) <==> !Diverges(f, config)
  {
    hide Transform, Get16, Get32;
    AdmissionsAgree(f, config);
    if Diverges(f, config) {
      VerdictsDiffer(f, config, slot, o);
    }
  }

  lemma AdmissionsAgree(f: bytes, config: Option<CryptoConfig>)
    ensures !Diverges(f, config) ==> TcAdmitted(f, config) == XdpAdmitted(f, config)
  {
    hide Get16, Get32;
  }

  lemma VerdictsDiffer(f: bytes, config: Option<CryptoConfig>, slot: Slot, o: Oracle)
    requires Diverges(f, config)
    ensures TcRun(f, config, slot, o).verdict != XdpRun(f, config, slot, o).verdict
  {
    hide Get16, Get32, KfuncFrame;
  }

  /** The first fragment of a packet that is not UDP, cut to its IP header. */
  function ExampleFragment(): (f: bytes)
    ensures |f| == 34
  {
    Repeat(0, 12) + Put16(ETH_P_IP) + [0x45, 0, 0, 20, 0, 0, 0x20, 0, 64, 1] + Repeat(0, 10)
  }

  /** On it the hooks differ: `tc_crypto` counts a malformed packet, `xdp_crypto` passes it. */
  lemma FragmentDiverges(config: Option<CryptoConfig>, slot: Slot, o: Oracle)
    ensures Diverges(ExampleFragment(), config)
    ensures TcRun(ExampleFragment(), config, slot, o) == Outcome(ExampleFragment(), Bad(BadIp), None)
    ensures XdpRun(ExampleFragment(), config, slot, o) == Outcome(ExampleFragment(), Pass, None)
  {
    hide Transform;
    var f := ExampleFragment();
    assert f[12..14] == Put16(ETH_P_IP) && f[14] == 0x45 && f[20] == 0x20 && f[21] == 0 && f[23] == 1;
  }
}
