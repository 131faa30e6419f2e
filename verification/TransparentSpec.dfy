/** The transparent-mode TC hook on values: what one run makes of a frame, helper failures
    included. `TcTransparent` implements it in place. */
module TransparentSpec {
  import opened Bytes
  import opened Checksum
  import opened Layout
  import opened Kernel
  import opened Hooks
  import opened Stats

  const PAYLOAD_OFF := 42

  /** Which of the six helper calls of `update_lengths` succeed. */
  datatype LengthOracle = LengthOracle(
    loadIp: bool, loadUdp: bool, csum: bool, storeIp: bool, storeUdp: bool, storeCheck: bool)

  /** Everything one run of the hook learns from the kernel. */
  datatype Oracle = Oracle(
    grow: bool, fill: nat -> byte, padStores: nat, now: u64, storeHeader: bool, lengths: LengthOracle,
    loadTail: bool, dynptr: DynptrOracle, kfunc: KfuncOracle, restoreIv: bool,
    event: EventOracle, loadPad: bool, shrink: bool)

  /** Every helper succeeds. */
  predicate AllSucceed(o: Oracle) {
    && o.grow && o.padStores >= BLOCK_BYTES && o.storeHeader && o.loadTail && o.restoreIv && o.loadPad && o.shrink
    && o.lengths == LengthOracle(true, true, true, true, true, true)
    && o.dynptr == DynptrOracle(true, true, true, true, true)
    && o.kfunc.ok
  }

  /** A frame on its way through the hook: still going, or left as it is with a verdict. */
  datatype Stage = Halt(frame: bytes, verdict: Verdict) | Go(frame: bytes)

  // ----- Admission ----------------------------------------------------------------------------

  /** A whole, unfragmented IPv4/UDP datagram for the hook's port, with `n` bytes of payload. */
  predicate Ready(f: bytes, cfg: CryptoConfig, n: nat) {
    && |f| >= PAYLOAD_OFF + n
    && EthProto(f) == ETH_P_IP && Ihl(f) == 5 && !Fragmented(f) && Protocol(f) == IPPROTO_UDP
    && cfg.algo == ALGO_CBC_AES && (cfg.action == ACTION_ENCRYPT || cfg.action == ACTION_DECRYPT)
    && UdpDest(f) == cfg.udpPort && UdpLen(f) == UDP_BYTES + n
  }

  /** The checks made before anything is changed. */
  function Admitted(f: bytes, cfg: Option<CryptoConfig>): (a: Admission)
    ensures a.Admit? ==> cfg.Some?
    ensures forall n: nat, c: CryptoConfig :: a == Admit(n) && cfg == Some(c) <==> cfg == Some(c) && Ready(f, c, n)
  {
    if |f| < ETH_BYTES then Stop(Bad(BadEth))
    else if EthProto(f) != ETH_P_IP then Stop(Pass)
    else if |f| < ETH_BYTES + IP_BYTES || Ihl(f) != 5 || Fragmented(f) then Stop(Bad(BadIp))
    else if Protocol(f) != IPPROTO_UDP then Stop(Pass)
    else if |f| < PAYLOAD_OFF then Stop(Bad(BadUdp))
    else if cfg.None? then Stop(Fail)
    else if cfg.value.algo != ALGO_CBC_AES
         || (cfg.value.action != ACTION_ENCRYPT && cfg.value.action != ACTION_DECRYPT) then Stop(Pass)
    else if UdpDest(f) != cfg.value.udpPort then Stop(Pass)
    else if UdpLen(f) < UDP_BYTES || PAYLOAD_OFF + UdpLen(f) - UDP_BYTES > |f| then Stop(Bad(BadUdp))
    else Admit(UdpLen(f) - UDP_BYTES)
  }

  // ----- Lengths ------------------------------------------------------------------------------

  const IP_LEN_AT := 16
  const IP_CHECK_AT := 24
  const UDP_LEN_AT := 38
  const UDP_CHECK_AT := 40

  /** A 16-bit length moved by `delta` in `__u16` arithmetic, which wraps. */
  function Moved(len: u16, delta: nat, add: bool): u16 {
    if add then (len + delta) % 0x1_0000 else (len - delta) % 0x1_0000
  }

  /** `update_lengths`; `v` is the verdict its caller records when it fails. */
  function UpdateLengths(f: bytes, delta: nat, add: bool, o: LengthOracle, v: Verdict): (s: Stage)
    requires |f| >= PAYLOAD_OFF
    ensures |s.frame| == |f|
    ensures s.Halt? ==> s.verdict == v
  {
    if !o.loadIp || !o.loadUdp then Halt(f, v) else
    var ipLen, udpLen := Get16(f, IP_LEN_AT), Get16(f, UDP_LEN_AT);
    if !add && (ipLen < delta || udpLen < delta) then Halt(f, v) else
    var newIp, newUdp := Moved(ipLen, delta, add), Moved(udpLen, delta, add);
    UpdateStored(f, ipLen, newIp, newUdp, o, v)
  }

  /** The stores of `update_lengths`, each of which may be the last. */
  function UpdateStored(f: bytes, ipLen: u16, newIp: u16, newUdp: u16, o: LengthOracle, v: Verdict): (s: Stage)
    requires |f| >= PAYLOAD_OFF
    ensures |s.frame| == |f|
    ensures s.Halt? ==> s.verdict == v
  {
    if !o.csum then Halt(f, v) else
    var f1 := Splice(f, IP_CHECK_AT, Put16(CsumReplace(Get16(f, IP_CHECK_AT), ipLen, newIp)));
    if !o.storeIp then Halt(f1, v) else
    var f2 := Splice(f1, IP_LEN_AT, Put16(newIp));
    if !o.storeUdp then Halt(f2, v) else
    var f3 := Splice(f2, UDP_LEN_AT, Put16(newUdp));
    if !o.storeCheck then Halt(f3, v) else
    Go(Splice(f3, UDP_CHECK_AT, Put16(0)))
  }

  // ----- Encrypt ------------------------------------------------------------------------------

  function Pow256(k: nat): (p: nat)
    ensures p > 0
  {
    if k == 0 then 1 else 0x100 * Pow256(k - 1)
  }

  /** `fill_iv`: the eight little-endian bytes of the clock, twice. */
  function IvOf(now: u64): (iv: bytes)
    ensures |iv| == IV_BYTES
  {
    seq(IV_BYTES, i requires 0 <= i => now / Pow256(i % 8) % 0x100)
  }

  function PadLen(n: nat): (p: nat)
    ensures 1 <= p <= BLOCK_BYTES && (n + p) % BLOCK_BYTES == 0
  {
    BLOCK_BYTES - n % BLOCK_BYTES
  }

  function BodyLen(n: nat): nat {
    n + PadLen(n)
  }

  /** How many bytes encryption adds to a payload of `n` bytes. */
  function Delta(n: nat): nat {
    PadLen(n) + HEADER_BYTES
  }

  /** The packet grown for a payload of `n` bytes, with its first `k` padding bytes stored. */
  function Padded(f: bytes, n: nat, k: nat, o: Oracle): (g: bytes)
    requires |f| >= PAYLOAD_OFF + n && k <= PadLen(n)
    ensures |g| == |f| + Delta(n)
  {
    Splice(Resized(f, |f| + Delta(n), o.fill), PAYLOAD_OFF + n, Repeat(PadLen(n), k))
  }

  /** The payload bounds, the resize and the padding. */
  function GrowAndPad(f: bytes, n: nat, o: Oracle): (s: Stage)
    requires |f| >= PAYLOAD_OFF + n
    ensures s.Halt? ==> s.verdict.Bad?
    ensures s.Go? ==> 1 <= n <= MAX_TRANSPARENT_PAYLOAD && |s.frame| == |f| + Delta(n)
  {
    if n == 0 || n > MAX_TRANSPARENT_PAYLOAD then Halt(f, Bad(BadLength)) else
    if !o.grow then Halt(f, Bad(BadLength)) else
    if o.padStores < PadLen(n) then Halt(Padded(f, n, o.padStores, o), Bad(BadUdp)) else
    Go(Padded(f, n, PadLen(n), o))
  }

  /** The packet with its tail header stored. */
  function WithTail(g: bytes, b: u16, now: u64): (h: bytes)
    requires |g| >= PAYLOAD_OFF + b + HEADER_BYTES
    ensures |h| == |g|
  {
    Splice(g, PAYLOAD_OFF + b, Header(ACTION_ENCRYPT, b, IvOf(now)))
  }

  /** The tail header and the lengths. */
  function StoreTail(g: bytes, b: u16, delta: nat, o: Oracle): (s: Stage)
    requires |g| >= PAYLOAD_OFF + b + HEADER_BYTES
    ensures |s.frame| == |g|
    ensures s.Halt? ==> s.verdict.Bad?
  {
    if !o.storeHeader then Halt(g, Bad(BadMagic)) else
    UpdateLengths(WithTail(g, b, o.now), delta, true, o.lengths, Bad(BadIp))
  }

  /** Everything before encryption. */
  function Prepare(f: bytes, n: nat, o: Oracle): (s: Stage)
    requires |f| >= PAYLOAD_OFF + n
    ensures s.Halt? ==> s.verdict.Bad?
    ensures s.Go? ==> 1 <= n <= MAX_TRANSPARENT_PAYLOAD && |s.frame| == |f| + Delta(n)
  {
    var s := GrowAndPad(f, n, o);
    if s.Halt? then s else StoreTail(s.frame, BodyLen(n), Delta(n), o)
  }

  // ----- Decrypt ------------------------------------------------------------------------------

  /** The tail header checks; a checked payload of `n` bytes ends in a header. */
  function CheckTail(f: bytes, n: nat, o: Oracle): (s: Stage)
    requires |f| >= PAYLOAD_OFF + n
    ensures s.frame == f
    ensures s.Go? ==> n > HEADER_BYTES
    ensures s.Halt? ==> s.verdict.Bad? || s.verdict.Fail?
  {
    if n < HEADER_BYTES then Halt(f, Bad(BadLength)) else
    if !o.loadTail then Halt(f, Fail) else
    var b := n - HEADER_BYTES;
    var failure := TailFailure(At(f, PAYLOAD_OFF + b, HEADER_BYTES), b);
    if failure.Some? then Halt(f, failure.value) else Go(f)
  }

  /** What is wrong with a tail header behind `b` body bytes, if anything. */
  function TailFailure(tail: bytes, b: nat): (v: Option<Verdict>)
    requires |tail| == HEADER_BYTES
    ensures v.Some? ==> v.value.Bad?
    ensures v.None? ==> b > 0
  {
    if Get32(tail, 0) != MAGIC || tail[4] != VERSION then Some(Bad(BadMagic))
    else if b == 0 || b % BLOCK_BYTES != 0 || Get16(tail, 6) != b then Some(Bad(BadLength))
    else None
  }

  /** How much padding the hook strips: it trusts the last byte of the body, if that is in range. */
  function StripLen(last: byte, b: nat): (n: Option<nat>)
    ensures n.Some? ==> n.value == last && 1 <= last <= BLOCK_BYTES && last <= b
  {
    if last < 1 || last > BLOCK_BYTES || last > b then None else Some(last)
  }

  /** Read the pad length, cut the packet, repair the lengths. */
  function Finish(f: bytes, b: nat, o: Oracle): (s: Stage)
    requires |f| >= PAYLOAD_OFF + b + HEADER_BYTES && b > 0
    ensures s.Halt? ==> FailedAfterOk(s.verdict)
  {
    if !o.loadPad then Halt(f, DoneThenFail) else
    var strip := StripLen(f[PAYLOAD_OFF + b - 1], b);
    if strip.None? then Halt(f, DoneThenBad) else
    Cut(f, strip.value + HEADER_BYTES, o)
  }

  /** The packet shortened by `delta` bytes, its lengths repaired. */
  function Cut(f: bytes, delta: nat, o: Oracle): (s: Stage)
    requires |f| - delta >= PAYLOAD_OFF
    ensures s.Halt? ==> s.verdict == DoneThenFail
  {
    if !o.shrink then Halt(f, DoneThenFail) else
    UpdateLengths(Resized(f, |f| - delta, o.fill), delta, false, o.lengths, DoneThenFail)
  }

  /** The pointer checks repeated after a resize, for `need` bytes of payload. */
  predicate RecheckPasses(f: bytes, need: nat) {
    HeadersFit(f) && PayloadOff(f) + need <= |f|
  }

  // ----- The cipher ---------------------------------------------------------------------------

  /** The exit taken before the kfunc, if any: no context, or no dynptr window. */
  function WindowFailure(slot: Slot, o: DynptrOracle): (v: Option<Verdict>)
    ensures v.Some? ==> v.value.Bad?
    ensures v.None? <==> slot.Held? && o == DynptrOracle(true, true, true, true, true)
  {
    if !slot.Held? then Some(Bad(NoCtx)) else
    if !o.from || !o.cloneBody then Some(Bad(BadAlignment)) else
    if !o.adjustBody then Some(Bad(BadLength)) else
    if !o.cloneIv then Some(Bad(BadAlignment)) else
    if !o.adjustIv then Some(Bad(BadMagic)) else
    None
  }

  /** Find the context, set up the windows, run the kfunc, and when encrypting restore the IV. */
  function Crypted(f: bytes, b: nat, d: Direction, slot: Slot, o: Oracle): (s: Stage)
    requires PAYLOAD_OFF + b + HEADER_BYTES <= |f|
    ensures |s.frame| == |f|
    ensures s.Halt? ==> s.verdict.Bad? || s.verdict.CipherFailed?
  {
    var failure := WindowFailure(slot, o.dynptr);
    if failure.Some? then Halt(f, failure.value) else
    var ivAt := PAYLOAD_OFF + b + IV_OFFSET;
    var g := KfuncFrame(f, slot.cipher, d, PAYLOAD_OFF, b, ivAt, o.kfunc);
    if !KfuncSucceeds(slot.cipher, b, o.kfunc) then Halt(g, CipherFailed) else
    if d == Decrypt then Go(g) else
    if !o.restoreIv then Halt(g, Bad(BadMagic)) else
    Go(Splice(g, ivAt, IvOf(o.now)))
  }

  function Ended(s: Stage, e: Option<Event>): Outcome {
    match s
    case Halt(f, v) => Outcome(f, v, e)
    case Go(f) => Outcome(f, Done, e)
  }

  function EncryptRun(f: bytes, n: nat, cfg: CryptoConfig, slot: Slot, o: Oracle): Outcome
    requires |f| >= PAYLOAD_OFF + n
  {
    var s := Prepare(f, n, o);
    if s.Halt? then Ended(s, None) else
    var t := Crypted(s.frame, BodyLen(n), Encrypt, slot, o);
    if t.Halt? then Ended(t, None) else
    Ended(t, EventOf(t.frame, 34, n, BodyLen(n), PAYLOAD_OFF, cfg, o.event))
  }

  function DecryptRun(f: bytes, n: nat, cfg: CryptoConfig, slot: Slot, o: Oracle): Outcome
    requires |f| >= PAYLOAD_OFF + n
  {
    var s := CheckTail(f, n, o);
    if s.Halt? then Ended(s, None) else
    var b := n - HEADER_BYTES;
    var t := Crypted(f, b, Decrypt, slot, o);
    if t.Halt? then Ended(t, None) else
    Ended(Finish(t.frame, b, o), EventOf(t.frame, 34, n, b, PAYLOAD_OFF, cfg, o.event))
  }

  /** One run of `tc_transparent`. */
  function Run(f: bytes, cfg: Option<CryptoConfig>, slot: Slot, o: Oracle): Outcome {
    match Admitted(f, cfg)
    case Stop(v) => Outcome(f, v, None)
    case Admit(n) =>
      if cfg.value.action == ACTION_ENCRYPT then EncryptRun(f, n, cfg.value, slot, o)
      else DecryptRun(f, n, cfg.value, slot, o)
  }
}
