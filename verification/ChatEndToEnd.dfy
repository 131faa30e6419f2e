/** From the client's message to the server's text, with framed hooks in between. */
module ChatEndToEnd {
  import opened Bytes
  import opened Layout
  import opened Kernel
  import opened Hooks
  import opened FramedSpec
  import opened FramedLaws
  import opened FramedGroup
  import opened Chat

  // ----- Hook and server accept the same datagrams --------------------------------------------

  /** The UDP payload of a frame, as the server's socket returns it. */
  function UdpPayload(f: bytes): (p: bytes)
    requires HeadersFit(f) && UdpLen(f) >= UDP_BYTES && PayloadOff(f) + UdpLen(f) - UDP_BYTES <= |f|
  {
    At(f, PayloadOff(f), UdpLen(f) - UDP_BYTES)
  }

  /** A whole, unfragmented IPv4/UDP datagram for the configured port, whatever its payload. */
  predicate Delivered(f: bytes, cfg: CryptoConfig) {
    && ReachesPort(f, Some(cfg)) && !Fragmented(f)
    && UdpLen(f) >= UDP_BYTES && PayloadOff(f) + UdpLen(f) - UDP_BYTES <= |f|
  }

  /** `parse_packet` accepts a payload exactly when `tc_crypto` admits the frame that carries it,
      and both find the same body. */
  lemma ServerAgreesWithHook(f: bytes, cfg: CryptoConfig)
    requires Delivered(f, cfg) && ValidAction(cfg) && cfg.algo == ALGO_CBC_AES
    ensures ParsePacket(UdpPayload(f)).Ok? <==> TcAdmitted(f, Some(cfg)).Admit?
    ensures ParsePacket(UdpPayload(f)).Ok? ==>
              var n := TcAdmitted(f, Some(cfg)).n;
              ParsePacket(UdpPayload(f)) == Ok((n, At(f, BodyOff(f), n)))
  {
    var data := UdpPayload(f);
    if |data| >= HEADER_BYTES {
      PayloadFields(f, data);
      hide Get16, Get32, At;
    }
  }

  lemma PayloadFields(f: bytes, data: bytes)
    requires HeadersFit(f) && |f| >= PayloadOff(f) + |data| && |data| >= HEADER_BYTES
    requires data == At(f, PayloadOff(f), |data|)
    ensures Get32(data, 0) == Magic(f) && data[4] == Version(f) && data[5] == Action(f)
    ensures Get16(data, 6) == DeclaredLen(f)
    ensures data[HEADER_BYTES..] == At(f, BodyOff(f), |data| - HEADER_BYTES)
  {
    Get32At(f, PayloadOff(f), |data|, 0);
    Get16At(f, PayloadOff(f), |data|, 6);
    assert data[4] == f[PayloadOff(f) + 4] && data[5] == f[PayloadOff(f) + 5];
    AtAt(f, PayloadOff(f), |data|, HEADER_BYTES, |data| - HEADER_BYTES);
  }

  // ----- End to end ---------------------------------------------------------------------------

  /** One message on its way: the frame that carries it, the hook on each side and what their
      kernels do. */
  datatype Delivery = Delivery(frame: bytes, iv: bytes, sender: Hook, sent: Oracle, receiver: Hook, received: Oracle)

  /** The frame carries the client's packet for `message`. */
  predicate Carries(d: Delivery, message: bytes, cfg: CryptoConfig) {
    && |d.iv| == IV_BYTES && ClientPacket(message, d.iv).Ok?
    && Delivered(d.frame, cfg) && UdpPayload(d.frame) == ClientPacket(message, d.iv).value
  }

  predicate HooksSucceed(d: Delivery) {
    Succeeds(d.sent) && Succeeds(d.received)
  }

  /** The frame after the sender's encrypting hook and the receiver's decrypting hook. */
  function Arrived(d: Delivery, cfg: CryptoConfig, slot: Slot): bytes {
    Step(OnTheWire(d, cfg, slot), Op(d.receiver, Decrypt, d.received), cfg, slot).frame
  }

  function OnTheWire(d: Delivery, cfg: CryptoConfig, slot: Slot): bytes {
    Step(d.frame, Op(d.sender, Encrypt, d.sent), cfg, slot).frame
  }

  lemma TwoSteps(d: Delivery, cfg: CryptoConfig, slot: Slot)
    ensures var ops := [Op(d.sender, Encrypt, d.sent), Op(d.receiver, Decrypt, d.received)];
            StepAll(d.frame, ops, cfg, slot) == Arrived(d, cfg, slot) && Net(ops) == 0
  {
    hide Step;
    var ops := [Op(d.sender, Encrypt, d.sent), Op(d.receiver, Decrypt, d.received)];
    var first := ops[..1];
    assert first == [ops[0]] && first[..0] == [];
    assert StepAll(d.frame, first, cfg, slot) == Step(StepAll(d.frame, first[..0], cfg, slot), ops[0], cfg, slot).frame;
    assert Net(first) == Net(first[..0]) + 1;
  }

  /** A client frame is admitted by `tc_crypto`. */
  lemma ClientFrameAdmitted(d: Delivery, message: bytes, cfg: CryptoConfig)
    requires Carries(d, message, cfg) && cfg.algo == ALGO_CBC_AES
    ensures TcAdmitted(d.frame, Some(ConfigFor(cfg, Encrypt))) == Admit(|PadBody(message)|)
    ensures At(d.frame, BodyOff(d.frame), |PadBody(message)|) == PadBody(message)
  {
    hide ParsePacket, TcAdmitted;
    ClientServerRoundTrip(message, d.iv);
    ServerAgreesWithHook(d.frame, ConfigFor(cfg, Encrypt));
  }

  /** The server reads the same payload before the hooks and after them, so it prints the
      message. */
  lemma MessageArrives(d: Delivery, message: bytes, cfg: CryptoConfig, slot: Slot)
    requires Carries(d, message, cfg) && cfg.algo == ALGO_CBC_AES && slot.Held? && HooksSucceed(d)
    ensures Delivered(Arrived(d, cfg, slot), cfg)
    ensures ParsePacket(UdpPayload(Arrived(d, cfg, slot))) == Ok((|PadBody(message)|, PadBody(message)))
    ensures Text(UdpPayload(Arrived(d, cfg, slot))) == Some(message)
  {
    hide ParsePacket, TcAdmitted, UnpadBody, Arrived;
    var f := d.frame;
    var n := |PadBody(message)|;
    ClientFrameAdmitted(d, message, cfg);
    TwoSteps(d, cfg, slot);
    BalancedIsIdentity(f, n, [Op(d.sender, Encrypt, d.sent), Op(d.receiver, Decrypt, d.received)], cfg, slot);
    ClearedChecksumKeepsPayload(f, Arrived(d, cfg, slot), cfg, n);
    ClientServerRoundTrip(message, d.iv);
  }

  lemma ClearedChecksumKeepsPayload(f: bytes, g: bytes, cfg: CryptoConfig, n: nat)
    requires Delivered(f, cfg) && HasBody(f, n) && g == Splice(f, UdpOff(f) + 6, [0, 0])
    ensures Delivered(g, cfg) && UdpPayload(g) == UdpPayload(f)
  {
    FieldsKept(f, g, n);
    SpliceMiss(f, UdpOff(f) + 6, [0, 0], PayloadOff(f), UdpLen(f) - UDP_BYTES);
  }

  /** The IV field of the frame holds the client's IV. */
  lemma ClientIv(d: Delivery, message: bytes, cfg: CryptoConfig)
    requires Carries(d, message, cfg)
    ensures HasHeader(d.frame) && At(d.frame, IvOff(d.frame), IV_BYTES) == d.iv
  {
    PacketMeans(message, d.iv);
    var f, p := d.frame, UdpPayload(d.frame);
    assert p[8..24] == d.iv;
    AtAt(f, PayloadOff(f), |p|, IV_OFFSET, IV_BYTES);
    hide ClientPacket, Get16, Get32;
  }

  /** On the wire the body is ciphertext under the IV the client chose. */
  lemma WireCarriesCiphertext(d: Delivery, message: bytes, cfg: CryptoConfig, slot: Slot)
    requires Carries(d, message, cfg) && cfg.algo == ALGO_CBC_AES && slot.Held? && HooksSucceed(d)
    ensures HasBody(d.frame, |PadBody(message)|) && |OnTheWire(d, cfg, slot)| == |d.frame|
    ensures At(OnTheWire(d, cfg, slot), BodyOff(d.frame), |PadBody(message)|)
         == slot.cipher.Run(Encrypt, d.iv, PadBody(message))
  {
    ClientIv(d, message, cfg);
    hide TcAdmitted, Step;
    var f, n := d.frame, |PadBody(message)|;
    ClientFrameAdmitted(d, message, cfg);
    NothingMoved(f, n, slot.cipher);
    StepMoves(f, f, n, 0, Op(d.sender, Encrypt, d.sent), cfg, slot);
  }

  /** `data` is what the server's socket returns for this delivery. */
  predicate Receives(d: Delivery, cfg: CryptoConfig, slot: Slot, data: bytes) {
    Delivered(Arrived(d, cfg, slot), cfg) && data == UdpPayload(Arrived(d, cfg, slot))
  }

  lemma {:induction false} TextsOfAll(datagrams: seq<bytes>, messages: seq<bytes>)
    requires |datagrams| == |messages|
    requires forall i :: 0 <= i < |messages| ==> Text(datagrams[i]) == Some(messages[i])
    ensures Texts(datagrams) == messages
    decreases |datagrams|
  {
    hide Text;
    if datagrams != [] {
      var k := |datagrams| - 1;
      TextsOfAll(datagrams[..k], messages[..k]);
      assert messages == messages[..k] + [messages[k]];
    }
  }

  /** A whole session: any messages the client accepts, each through its own pair of hooks, come out
      of the server's loop unchanged and in order; `Serve` then prints them all and succeeds. */
  lemma SessionArrives(ds: seq<Delivery>, messages: seq<bytes>, received: seq<bytes>, cfg: CryptoConfig, slot: Slot)
    requires |ds| == |messages| == |received| && cfg.algo == ALGO_CBC_AES && slot.Held?
    requires forall i :: 0 <= i < |ds| ==> Carries(ds[i], messages[i], cfg) && HooksSucceed(ds[i])
    requires forall i :: 0 <= i < |ds| ==> Receives(ds[i], cfg, slot, received[i])
    ensures Texts(received) == messages
  {
    forall i | 0 <= i < |ds|
      ensures Text(received[i]) == Some(messages[i])
    {
      hide Text, Arrived, Carries, Delivered, UdpPayload;
      MessageArrives(ds[i], messages[i], cfg, slot);
    }
    hide *;
    TextsOfAll(received, messages);
  }
}
