/** Which outcome the transparent hook counts for which packet: each verdict with its exact condition
    on the bytes of the frame, the configuration and the helper calls. */
module TransparentVerdicts {
  import opened Bytes
  import opened Layout
  import opened Kernel
  import opened Hooks
  import opened Stats
  import opened Wire
  import opened TransparentSpec
  import opened TransparentRoundTrip

  // ----- Packets that are not for the hook ----------------------------------------------------

  /** A whole, unfragmented IP header without options. */
  predicate PlainIp(f: bytes) {
    WholeIpHeader(f) && IpHeaderLen(f) == 20 && !IsFragment(f)
  }

  /** With a whole UDP header behind it. */
  predicate PlainUdp(f: bytes) {
    PlainIp(f) && WholeUdpHeader(f)
  }

  /** A whole datagram for the hook. */
  predicate ForHook(f: bytes, config: Option<CryptoConfig>) {
    && PlainUdp(f) && config.Some? && CbcAction(config.value)
    && UdpPort(f) == config.value.udpPort && WholePayload(f)
  }

  /** The predicate of the specification is that of the bytes. */
  lemma ReadyMeans(f: bytes, cfg: CryptoConfig, n: nat)
    ensures Ready(f, cfg, n) <==> ForHook(f, Some(cfg)) && UdpLength(f) == 8 + n
  {
    if |f| >= 34 {
      EthernetRead(f);
      IpRead(f);
      if WholeUdpHeader(f) {
        UdpRead(f);
      }
    }
  }

  lemma AdmittedMeans(f: bytes, config: Option<CryptoConfig>)
    ensures Admitted(f, config).Admit? <==> ForHook(f, config)
  {
    var a := Admitted(f, config);
    if a.Admit? {
      ReadyMeans(f, config.value, a.n);
    }
    if ForHook(f, config) {
      var n := UdpLength(f) - 8;
      ReadyMeans(f, config.value, n);
      assert Ready(f, config.value, n);
      assert a == Admit(n) && config == Some(config.value);
    }
    hide Admitted, ForHook, Ready;
  }

  /** A packet that is not for the hook is left alone, and which counter it moves is decided by the
      first of the headers that is not as it should be. */
  lemma RefusedVerdict(f: bytes, config: Option<CryptoConfig>, slot: Slot, o: Oracle)
    requires !ForHook(f, config)
    ensures var r := Run(f, config, slot, o);
            && r.frame == f && r.event.None?
            && (r.verdict == Bad(BadEth) <==> |f| < 14)
            && (r.verdict == Bad(BadIp) <==> CarriesIp(f) && !PlainIp(f))
            && (r.verdict == Bad(BadUdp) <==>
                  || (PlainIp(f) && f[23] == 17 && |f| < 42)
                  || (PlainUdp(f) && config.Some? && CbcAction(config.value) && UdpPort(f) == config.value.udpPort))
            && (r.verdict == Fail <==> PlainUdp(f) && config.None?)
            && (r.verdict == Pass <==>
                  || (|f| >= 14 && !CarriesIp(f))
                  || (PlainIp(f) && f[23] != 17)
                  || (PlainUdp(f) && config.Some?
                      && (!CbcAction(config.value) || UdpPort(f) != config.value.udpPort)))
  {
    hide EncryptRun, DecryptRun;
    if |f| >= 14 {
      EthernetRead(f);
    }
    if |f| >= 34 {
      IpRead(f);
      if WholeUdpHeader(f) {
        UdpRead(f);
      }
    }
    hide Field, Get16;
  }

  // ----- Encrypting ---------------------------------------------------------------------------

  /** The payload is in bounds and the packet has grown. */
  predicate Grown(n: nat, o: Oracle) {
    1 <= n <= 1408 && o.grow
  }

  /** ... and its 1 to 16 bytes of padding are stored. */
  predicate PaddedUp(n: nat, o: Oracle) {
    Grown(n, o) && o.padStores >= 16 - n % 16
  }

  /** ... and the tail header and the lengths. */
  predicate Prepared(n: nat, o: Oracle) {
    PaddedUp(n, o) && o.storeHeader && AllLengthSteps(o.lengths)
  }

  predicate AllLengthSteps(l: LengthOracle) {
    l.loadIp && l.loadUdp && l.csum && l.storeIp && l.storeUdp && l.storeCheck
  }

  /** The context is found and both dynptr windows are set up. */
  predicate Windowed(slot: Slot, d: DynptrOracle) {
    slot.Held? && d.from && d.cloneBody && d.adjustBody && d.cloneIv && d.adjustIv
  }

  /** The dynptr step that fails, one reason each. */
  predicate AlignmentFails(slot: Slot, d: DynptrOracle) {
    slot.Held? && (!d.from || !d.cloneBody || (d.adjustBody && !d.cloneIv))
  }

  predicate BodyWindowFails(slot: Slot, d: DynptrOracle) {
    slot.Held? && d.from && d.cloneBody && !d.adjustBody
  }

  predicate IvWindowFails(slot: Slot, d: DynptrOracle) {
    slot.Held? && d.from && d.cloneBody && d.adjustBody && d.cloneIv && !d.adjustIv
  }

  lemma PrepareVerdict(f: bytes, n: nat, o: Oracle)
    requires |f| >= PAYLOAD_OFF + n
    ensures var s := Prepare(f, n, o);
            && (s.Go? <==> Prepared(n, o))
            && (s.Halt? ==>
                  && (s.verdict == Bad(BadLength) <==> !Grown(n, o))
                  && (s.verdict == Bad(BadUdp) <==> Grown(n, o) && !PaddedUp(n, o))
                  && (s.verdict == Bad(BadMagic) <==> PaddedUp(n, o) && !o.storeHeader)
                  && (s.verdict == Bad(BadIp) <==> PaddedUp(n, o) && o.storeHeader && !AllLengthSteps(o.lengths))
                  && s.verdict in {Bad(BadLength), Bad(BadUdp), Bad(BadMagic), Bad(BadIp)})
  {
    hide UpdateLengths, Splice, Resized, Header, IvOf;
    var s := GrowAndPad(f, n, o);
    if s.Go? {
      AddGoesIff(WithTail(s.frame, BodyLen(n), o.now), Delta(n), o.lengths, Bad(BadIp));
    }
  }

  lemma AddGoesIff(f: bytes, delta: nat, o: LengthOracle, v: Verdict)
    requires |f| >= PAYLOAD_OFF
    ensures UpdateLengths(f, delta, true, o, v).Go? <==> AllLengthSteps(o)
  {
    hide Splice, Moved;
  }

  /** What the context lookup, the windows, the kfunc and the IV store count. */
  lemma CryptVerdict(f: bytes, b: nat, d: Direction, slot: Slot, o: Oracle)
    requires PAYLOAD_OFF + b + HEADER_BYTES <= |f| && b % BLOCK_BYTES == 0
    ensures var s := Crypted(f, b, d, slot, o);
            var lost := Windowed(slot, o.dynptr) && o.kfunc.ok && d == Encrypt && !o.restoreIv;
            && (s.Go? <==> Windowed(slot, o.dynptr) && o.kfunc.ok && (d == Encrypt ==> o.restoreIv))
            && (s.Halt? ==>
                  && (s.verdict == Bad(NoCtx) <==> !slot.Held?)
                  && (s.verdict == Bad(BadAlignment) <==> AlignmentFails(slot, o.dynptr))
                  && (s.verdict == Bad(BadLength) <==> BodyWindowFails(slot, o.dynptr))
                  && (s.verdict == Bad(BadMagic) <==> IvWindowFails(slot, o.dynptr) || lost)
                  && (s.verdict == CipherFailed <==> Windowed(slot, o.dynptr) && !o.kfunc.ok)
                  && s.verdict in {Bad(NoCtx), Bad(BadAlignment), Bad(BadLength), Bad(BadMagic), CipherFailed})
  {
    hide KfuncFrame, Splice, IvOf;
  }

  /** What an encrypting run on a datagram of `n` payload bytes counts. */
  lemma EncryptVerdict(f: bytes, n: nat, cfg: CryptoConfig, slot: Slot, o: Oracle)
    requires Ready(f, cfg, n) && cfg.action == 1
    ensures var v, d := Run(f, Some(cfg), slot, o).verdict, o.dynptr;
            && (v == Done <==> Prepared(n, o) && Windowed(slot, d) && o.kfunc.ok && o.restoreIv)
            && (v == CipherFailed <==> Prepared(n, o) && Windowed(slot, d) && !o.kfunc.ok)
            && (v == Bad(NoCtx) <==> Prepared(n, o) && !slot.Held?)
            && (v == Bad(BadAlignment) <==> Prepared(n, o) && AlignmentFails(slot, d))
            && (v == Bad(BadLength) <==> !Grown(n, o) || (Prepared(n, o) && BodyWindowFails(slot, d)))
            && (v == Bad(BadUdp) <==> Grown(n, o) && !PaddedUp(n, o))
            && (v == Bad(BadIp) <==> PaddedUp(n, o) && o.storeHeader && !AllLengthSteps(o.lengths))
            && (v == Bad(BadMagic) <==>
                  || (PaddedUp(n, o) && !o.storeHeader)
                  || (Prepared(n, o) && IvWindowFails(slot, d))
                  || (Prepared(n, o) && Windowed(slot, d) && o.kfunc.ok && !o.restoreIv))
            && v != Pass && v != Fail && v != Bad(BadEth) && v != DoneThenBad && v != DoneThenFail
  {
    hide *;
    EncryptEnds(f, n, cfg, slot, o);
    PrepareVerdict(f, n, o);
    Cumulative(n, o, slot, o.dynptr);
    if Prepare(f, n, o).Go? {
      CryptVerdict(Prepare(f, n, o).frame, BodyLen(n), Encrypt, slot, o);
    }
  }

  lemma Cumulative(n: nat, o: Oracle, slot: Slot, d: DynptrOracle)
    ensures Prepared(n, o) <==> PaddedUp(n, o) && o.storeHeader && AllLengthSteps(o.lengths)
    ensures PaddedUp(n, o) ==> Grown(n, o)
    ensures Windowed(slot, d) || AlignmentFails(slot, d) || BodyWindowFails(slot, d) || IvWindowFails(slot, d)
            ==> slot.Held?
    ensures Windowed(slot, d) ==> !AlignmentFails(slot, d) && !BodyWindowFails(slot, d) && !IvWindowFails(slot, d)
    ensures (BodyWindowFails(slot, d) ==> !d.adjustBody) && (IvWindowFails(slot, d) ==> !d.adjustIv)
  {
  }

  /** An encrypting run ends where its preparation or its cipher step ends. */
  lemma EncryptEnds(f: bytes, n: nat, cfg: CryptoConfig, slot: Slot, o: Oracle)
    requires Ready(f, cfg, n) && cfg.action == 1
    ensures |f| >= PAYLOAD_OFF + n && BodyLen(n) % BLOCK_BYTES == 0 && BodyLen(n) + HEADER_BYTES == n + Delta(n)
    ensures var p := Prepare(f, n, o);
            var v := Run(f, Some(cfg), slot, o).verdict;
            if p.Halt? then v == p.verdict else
            var s := Crypted(p.frame, BodyLen(n), Encrypt, slot, o);
            v == if s.Halt? then s.verdict else Done
  {
    assert Admitted(f, Some(cfg)) == Admit(n);
    hide Prepare, Crypted, EventOf;
  }

  // ----- Decrypting ---------------------------------------------------------------------------

  /** The last 24 of `n` payload bytes: the magic number and the version. */
  predicate TailMagic(f: bytes, n: nat)
    requires |f| >= 42 + n && n >= 24
  {
    Field(f, 42 + n - 24, 4) == 0x45424146 && f[42 + n - 24 + 4] == 1
  }

  /** ... and a declared length of what comes before, in whole blocks. */
  predicate TailLength(f: bytes, n: nat)
    requires |f| >= 42 + n && n >= 24
  {
    Field(f, 42 + n - 24 + 6, 2) == n - 24 && n > 24 && (n - 24) % 16 == 0
  }

  /** A payload that ends like a sealed one. */
  predicate SealedTail(f: bytes, n: nat)
    requires |f| >= 42 + n
  {
    n >= 24 && TailMagic(f, n) && TailLength(f, n)
  }

  lemma TailRead(f: bytes, n: nat)
    requires |f| >= PAYLOAD_OFF + n && n >= HEADER_BYTES
    ensures var v := TailFailure(At(f, PAYLOAD_OFF + n - HEADER_BYTES, HEADER_BYTES), n - HEADER_BYTES);
            && (v == Some(Bad(BadMagic)) <==> !TailMagic(f, n))
            && (v == Some(Bad(BadLength)) <==> TailMagic(f, n) && !TailLength(f, n))
            && (v == None <==> TailMagic(f, n) && TailLength(f, n))
  {
    hide Field, Get16, Get32, At, TailFailure;
    var at := PAYLOAD_OFF + n - HEADER_BYTES;
    TailFields(f, at);
    TailFailureMeans(At(f, at, HEADER_BYTES), n - HEADER_BYTES);
  }

  lemma TailFields(f: bytes, at: nat)
    requires at + HEADER_BYTES <= |f|
    ensures var tail := At(f, at, HEADER_BYTES);
            Get32(tail, 0) == Field(f, at, 4) && tail[4] == f[at + 4] && Get16(tail, 6) == Field(f, at + 6, 2)
  {
    Field4(f, at);
    Field2(f, at + 6);
    Get32At(f, at, HEADER_BYTES, 0);
    Get16At(f, at, HEADER_BYTES, 6);
  }

  lemma TailFailureMeans(tail: bytes, b: nat)
    requires |tail| == HEADER_BYTES
    ensures var v := TailFailure(tail, b);
            var magic := Get32(tail, 0) == 0x45424146 && tail[4] == 1;
            var length := Get16(tail, 6) == b && b > 0 && b % 16 == 0;
            && (v == Some(Bad(BadMagic)) <==> !magic) && (v == Some(Bad(BadLength)) <==> magic && !length)
            && (v == None <==> magic && length)
  {
    hide Get16, Get32;
  }

  /** A decrypting run ends where its tail check, its cipher step or its last part ends. */
  lemma DecryptEnds(f: bytes, n: nat, cfg: CryptoConfig, slot: Slot, o: Oracle)
    requires Ready(f, cfg, n) && cfg.action == 2
    ensures |f| >= PAYLOAD_OFF + n == 42 + n
    ensures var c := CheckTail(f, n, o);
            var r := Run(f, Some(cfg), slot, o);
            if c.Halt? then r == Outcome(f, c.verdict, None) else
            var s := Crypted(f, n - HEADER_BYTES, Decrypt, slot, o);
            if s.Halt? then r.verdict == s.verdict
            else r.verdict == Done || r.verdict == DoneThenBad || r.verdict == DoneThenFail
  {
    assert Admitted(f, Some(cfg)) == Admit(n);
    hide CheckTail, Crypted, Finish, EventOf;
  }

  /** Which tail check fails. */
  lemma CheckVerdict(f: bytes, n: nat, o: Oracle)
    requires |f| >= PAYLOAD_OFF + n
    ensures var s := CheckTail(f, n, o);
            && (s.Go? <==> SealedTail(f, n) && o.loadTail)
            && (s.Go? ==> n > HEADER_BYTES && (n - HEADER_BYTES) % BLOCK_BYTES == 0)
            && (s.Halt? ==>
                  && (s.verdict == Fail <==> n >= 24 && !o.loadTail)
                  && (s.verdict == Bad(BadMagic) <==> n >= 24 && o.loadTail && !TailMagic(f, n))
                  && (s.verdict == Bad(BadLength) <==> n < 24 || (o.loadTail && TailMagic(f, n) && !TailLength(f, n)))
                  && s.verdict in {Fail, Bad(BadMagic), Bad(BadLength)})
  {
    if n >= HEADER_BYTES {
      TailRead(f, n);
      if TailLength(f, n) {
        WholeBlocks(f, n);
      }
    }
    hide TailFailure, TailMagic, TailLength, At;
  }

  /** A decrypting run refuses every payload that does not end like a sealed one: it leaves the
      packet byte for byte as it was and counts a wrong magic number or version as that, everything
      else as a wrong length. A payload that does end so gets as far as the context lookup. */
  lemma UnsealedIsRefused(f: bytes, n: nat, cfg: CryptoConfig, slot: Slot, o: Oracle)
    requires Ready(f, cfg, n) && cfg.action == 2 && o.loadTail
    ensures |f| >= 42 + n
    ensures !SealedTail(f, n) ==>
              Run(f, Some(cfg), slot, o)
              == Outcome(f, if n >= 24 && !TailMagic(f, n) then Bad(BadMagic) else Bad(BadLength), None)
    ensures !slot.Held? ==> (Run(f, Some(cfg), slot, o).verdict == Bad(NoCtx) <==> SealedTail(f, n))
    ensures slot.Held? && o.dynptr.adjustBody && o.dynptr.adjustIv ==>
              (Run(f, Some(cfg), slot, o).verdict in {Bad(BadMagic), Bad(BadLength)} <==> !SealedTail(f, n))
  {
    hide *;
    DecryptEnds(f, n, cfg, slot, o);
    CheckVerdict(f, n, o);
    CumulativeTail(f, n, slot, o.dynptr);
    if CheckTail(f, n, o).Go? {
      CryptVerdict(f, n - HEADER_BYTES, Decrypt, slot, o);
    }
  }

  /** What a decrypting run on a datagram of `n` payload bytes counts before it counts `crypto_ok`. */
  lemma DecryptVerdict(f: bytes, n: nat, cfg: CryptoConfig, slot: Slot, o: Oracle)
    requires Ready(f, cfg, n) && cfg.action == 2
    ensures |f| >= 42 + n
    ensures var v, d := Run(f, Some(cfg), slot, o).verdict, o.dynptr;
            var sealed := SealedTail(f, n) && o.loadTail;
            && (v == Fail <==> n >= 24 && !o.loadTail)
            && (v == Bad(BadMagic) <==>
                  || (n >= 24 && o.loadTail && !TailMagic(f, n))
                  || (sealed && IvWindowFails(slot, d)))
            && (v == Bad(BadLength) <==>
                  || n < 24 || (o.loadTail && TailMagic(f, n) && !TailLength(f, n))
                  || (sealed && BodyWindowFails(slot, d)))
            && (v == Bad(NoCtx) <==> sealed && !slot.Held?)
            && (v == Bad(BadAlignment) <==> sealed && AlignmentFails(slot, d))
            && (v == CipherFailed <==> sealed && Windowed(slot, d) && !o.kfunc.ok)
            && (v == Done || v == DoneThenBad || v == DoneThenFail <==> sealed && Windowed(slot, d) && o.kfunc.ok)
  {
    hide *;
    DecryptEnds(f, n, cfg, slot, o);
    CheckVerdict(f, n, o);
    CumulativeTail(f, n, slot, o.dynptr);
    if CheckTail(f, n, o).Go? {
      CryptVerdict(f, n - HEADER_BYTES, Decrypt, slot, o);
    }
  }

  lemma CumulativeTail(f: bytes, n: nat, slot: Slot, d: DynptrOracle)
    requires |f| >= 42 + n
    ensures SealedTail(f, n) <==> n >= 24 && TailMagic(f, n) && TailLength(f, n)
    ensures Windowed(slot, d) || AlignmentFails(slot, d) || BodyWindowFails(slot, d) || IvWindowFails(slot, d)
            ==> slot.Held?
    ensures Windowed(slot, d) ==> !AlignmentFails(slot, d) && !BodyWindowFails(slot, d) && !IvWindowFails(slot, d)
    ensures (BodyWindowFails(slot, d) ==> !d.adjustBody) && (IvWindowFails(slot, d) ==> !d.adjustIv)
  {
  }

  lemma WholeBlocks(f: bytes, n: nat)
    requires |f| >= 42 + n && n >= 24 && TailLength(f, n)
    ensures (n - HEADER_BYTES) % BLOCK_BYTES == 0
  {
  }

  // ----- After `crypto_ok` --------------------------------------------------------------------

  /** What the kfunc makes of the body of a datagram of `n` payload bytes with a tail header: the
      body starts the payload, the IV fills the last 16 bytes. */
  function Opening(f: bytes, n: nat, c: Kernel.Cipher): bytes
    requires |f| >= 42 + n && n >= 24
  {
    c.Run(Decrypt, f[42 + n - 16..42 + n], f[42..42 + n - 24])
  }

  lemma OpeningRead(f: bytes, n: nat, slot: Slot, o: Oracle)
    requires |f| >= 42 + n && SealedTail(f, n) && Windowed(slot, o.dynptr) && o.kfunc.ok
    ensures slot.Held? && n > HEADER_BYTES == 24 && |f| >= PAYLOAD_OFF + n
    ensures var t, out := Crypted(f, n - HEADER_BYTES, Decrypt, slot, o), Opening(f, n, slot.cipher);
            && t.Go? && |t.frame| == |f| && |out| == n - 24
            && t.frame[42..42 + n - 24] == out
            && (forall i :: 0 <= i < 42 ==> t.frame[i] == f[i])
  {
    var b := n - HEADER_BYTES;
    var ivAt := PAYLOAD_OFF + b + IV_OFFSET;
    var out := slot.cipher.Run(Decrypt, At(f, ivAt, IV_BYTES), At(f, PAYLOAD_OFF, b));
    assert At(f, ivAt, IV_BYTES) == f[42 + n - 16..42 + n] && At(f, PAYLOAD_OFF, b) == f[42..42 + n - 24];
    WholeBlocks(f, n);
    SpliceHit(f, PAYLOAD_OFF, out);
    SpliceMiss(Splice(f, PAYLOAD_OFF, out), ivAt, seq(IV_BYTES, i requires i >= 0 => o.kfunc.iv(i)), PAYLOAD_OFF, b);
    hide SealedTail;
  }

  lemma SubtractGoesIff(f: bytes, delta: nat, o: LengthOracle, v: Verdict)
    requires |f| >= PAYLOAD_OFF
    ensures UpdateLengths(f, delta, false, o, v).Go?
            <==> AllLengthSteps(o) && Field(f, 16, 2) >= delta && Field(f, 38, 2) >= delta
  {
    Field2(f, 16);
    Field2(f, 38);
    hide Splice, Moved, Field, Get16;
  }

  lemma FinishIs(t: bytes, b: nat, o: Oracle)
    requires |t| >= PAYLOAD_OFF + b + HEADER_BYTES && b >= BLOCK_BYTES
    ensures var s, pad := Finish(t, b, o), t[PAYLOAD_OFF + b - 1];
            if !o.loadPad then s == Halt(t, DoneThenFail)
            else if !(1 <= pad <= 16) then s == Halt(t, DoneThenBad)
            else if !o.shrink then s == Halt(t, DoneThenFail)
            else s == UpdateLengths(Resized(t, |t| - (pad + 24), o.fill), pad + 24, false, o.lengths, DoneThenFail)
  {
    hide UpdateLengths, Resized;
  }

  lemma Offsets()
    ensures PAYLOAD_OFF == 42 && HEADER_BYTES == 24 && BLOCK_BYTES == 16
  {
  }

  lemma CutGoes(t: bytes, m: nat, delta: nat, o: Oracle)
    requires |t| >= m >= PAYLOAD_OFF
    ensures UpdateLengths(Resized(t, m, o.fill), delta, false, o.lengths, DoneThenFail).Go?
            <==> AllLengthSteps(o.lengths) && Field(t, 16, 2) >= delta && Field(t, 38, 2) >= delta
  {
    var cut := Resized(t, m, o.fill);
    assert cut[16..18] == t[16..18] && cut[38..40] == t[38..40];
    hide UpdateLengths, BigEndian, Resized, AllLengthSteps;
    SubtractGoesIff(cut, delta, o.lengths, DoneThenFail);
  }

  lemma CutKeeps(t: bytes, m: nat, delta: nat, k: nat, o: Oracle)
    requires |t| >= m >= PAYLOAD_OFF + k
    ensures var s := UpdateLengths(Resized(t, m, o.fill), delta, false, o.lengths, DoneThenFail);
            |s.frame| == m && s.frame[42..42 + k] == t[42..42 + k]
  {
    var cut := Resized(t, m, o.fill);
    assert cut[42..42 + k] == t[42..42 + k];
    hide UpdateLengths, Resized;
    UpdateLengthsKeeps(cut, delta, false, o.lengths, DoneThenFail, PAYLOAD_OFF, k);
  }

  lemma CutVerdict(t: bytes, b: nat, pad: nat, o: Oracle)
    requires |t| >= PAYLOAD_OFF + b + HEADER_BYTES && 1 <= pad <= 16 <= b
    ensures |t| - (pad + 24) >= PAYLOAD_OFF + b - pad
    ensures var s := UpdateLengths(Resized(t, |t| - (pad + 24), o.fill), pad + 24, false, o.lengths, DoneThenFail);
            && (s.Go? <==> AllLengthSteps(o.lengths) && Field(t, 16, 2) >= pad + 24 && Field(t, 38, 2) >= pad + 24)
            && |s.frame| == |t| - pad - 24 && s.frame[42..42 + b - pad] == t[42..42 + b - pad]
  {
    hide UpdateLengths, AllLengthSteps, Field, Resized;
    CutGoes(t, |t| - (pad + 24), pad + 24, o);
    CutKeeps(t, |t| - (pad + 24), pad + 24, b - pad, o);
  }

  lemma FinishVerdict(t: bytes, b: nat, o: Oracle)
    requires |t| >= PAYLOAD_OFF + b + HEADER_BYTES && b >= BLOCK_BYTES
    ensures PAYLOAD_OFF == 42 && HEADER_BYTES == 24
    ensures var s, pad := Finish(t, b, o), t[PAYLOAD_OFF + b - 1];
            && (s.Go? <==> && o.loadPad && 1 <= pad <= 16 && o.shrink && AllLengthSteps(o.lengths)
                           && Field(t, 16, 2) >= pad + 24 && Field(t, 38, 2) >= pad + 24)
            && (s.Halt? ==> (s.verdict == DoneThenBad <==> o.loadPad && !(1 <= pad <= 16)))
            && (s.Halt? ==> s.verdict == DoneThenBad || s.verdict == DoneThenFail)
            && if o.loadPad && 1 <= pad <= 16 && o.shrink
               then |s.frame| == |t| - pad - 24 && s.frame[42..42 + b - pad] == t[42..42 + b - pad]
               else s.frame == t
  {
    hide *;
    Offsets();
    FinishIs(t, b, o);
    var pad := t[PAYLOAD_OFF + b - 1];
    if 1 <= pad <= 16 {
      CutVerdict(t, b, pad, o);
    }
  }

  /** How a decrypting run ends once it has counted `crypto_ok`, and what it leaves: the last byte of
      what the kfunc returns decides, and then the resize and the length repair. */
  ghost predicate EndsAsOpened(f: bytes, out: bytes, o: Oracle, r: Outcome)
    requires |f| >= 42 && |out| >= 16
  {
    var pad := out[|out| - 1];
    && (r.verdict == DoneThenBad <==> o.loadPad && !(1 <= pad <= 16))
    && (r.verdict == Done <==> && o.loadPad && 1 <= pad <= 16 && o.shrink
                               && Field(f, 16, 2) >= pad + 24 && AllLengthSteps(o.lengths))
    && (r.verdict == Done || r.verdict == DoneThenBad || r.verdict == DoneThenFail)
    && if o.loadPad && 1 <= pad <= 16 && o.shrink then
         |r.frame| == |f| - pad - 24 >= 42 + |out| - pad && r.frame[42..42 + |out| - pad] == out[..|out| - pad]
       else
         |r.frame| == |f| >= 42 + |out| && r.frame[42..42 + |out|] == out
  }

  lemma OpenedVerdict(f: bytes, n: nat, cfg: CryptoConfig, slot: Slot, o: Oracle)
    requires Ready(f, cfg, n) && cfg.action == 2 && |f| >= 42 + n && SealedTail(f, n) && o.loadTail
    requires Windowed(slot, o.dynptr) && o.kfunc.ok
    ensures |Opening(f, n, slot.cipher)| == n - 24 >= 16
    ensures EndsAsOpened(f, Opening(f, n, slot.cipher), o, Run(f, Some(cfg), slot, o))
  {
    hide *;
    UdpLengthIs(f, n, cfg);
    SealedIsBlocks(f, n);
    DecryptGoesOn(f, n, cfg, slot, o);
    OpeningRead(f, n, slot, o);
    var t, out := Crypted(f, n - HEADER_BYTES, Decrypt, slot, o).frame, Opening(f, n, slot.cipher);
    FinishVerdict(t, n - HEADER_BYTES, o);
    SameParts(f, t, n - 24, out);
    EndsFromFinish(f, t, out, Finish(t, n - HEADER_BYTES, o), o, Run(f, Some(cfg), slot, o));
  }

  lemma EndsFromFinish(f: bytes, t: bytes, out: bytes, s: Stage, o: Oracle, r: Outcome)
    requires |t| == |f| >= 42 + |out| + 24 && |out| >= 16 && t[42..42 + |out|] == out
    requires var pad := out[|out| - 1];
             && (s.Go? <==> && o.loadPad && 1 <= pad <= 16 && o.shrink && AllLengthSteps(o.lengths)
                            && Field(f, 16, 2) >= pad + 24 && Field(f, 38, 2) >= pad + 24)
             && (s.Halt? ==> (s.verdict == DoneThenBad <==> o.loadPad && !(1 <= pad <= 16)))
             && (s.Halt? ==> s.verdict == DoneThenBad || s.verdict == DoneThenFail)
             && (if o.loadPad && 1 <= pad <= 16 && o.shrink
                 then |s.frame| == |t| - pad - 24 && s.frame[42..42 + |out| - pad] == t[42..42 + |out| - pad]
                 else s.frame == t)
             && (1 <= pad <= 16 ==> t[42..42 + |out| - pad] == out[..|out| - pad])
    requires Field(f, 38, 2) == 32 + |out|
    requires r.frame == s.frame && r.verdict == (if s.Go? then Done else s.verdict)
    ensures EndsAsOpened(f, out, o, r)
  {
    hide Field, AllLengthSteps;
  }

  lemma SameParts(f: bytes, t: bytes, b: nat, out: bytes)
    requires |t| == |f| >= 42 + b + 24 && b >= 16 && |out| == b && t[42..42 + b] == out
    requires forall i :: 0 <= i < 42 ==> t[i] == f[i]
    ensures t[42 + b - 1] == out[b - 1]
    ensures Field(t, 16, 2) == Field(f, 16, 2) && Field(t, 38, 2) == Field(f, 38, 2)
    ensures var pad := out[b - 1];
            1 <= pad <= 16 ==> t[42..42 + b - pad] == out[..b - pad]
  {
    var pad := out[b - 1];
    if 1 <= pad <= 16 {
      assert t[42..42 + b - pad] == t[42..42 + b][..b - pad];
    }
    assert t[16..18] == f[16..18] && t[38..40] == f[38..40];
    hide BigEndian;
  }

  lemma UdpLengthIs(f: bytes, n: nat, cfg: CryptoConfig)
    requires Ready(f, cfg, n)
    ensures |f| >= 42 + n && Field(f, 38, 2) == 8 + n
  {
    Field2(f, 38);
  }

  lemma SealedIsBlocks(f: bytes, n: nat)
    requires |f| >= 42 + n && SealedTail(f, n)
    ensures n - 24 >= 16 == BLOCK_BYTES && (n - 24) % 16 == 0
  {
    hide Field;
  }

  lemma DecryptGoesOn(f: bytes, n: nat, cfg: CryptoConfig, slot: Slot, o: Oracle)
    requires Ready(f, cfg, n) && cfg.action == 2 && |f| >= 42 + n && SealedTail(f, n) && o.loadTail
    requires Windowed(slot, o.dynptr) && o.kfunc.ok
    ensures |f| >= PAYLOAD_OFF + n && n > HEADER_BYTES
    ensures var s := Finish(Crypted(f, n - HEADER_BYTES, Decrypt, slot, o).frame, n - HEADER_BYTES, o);
            var r := Run(f, Some(cfg), slot, o);
            r.frame == s.frame && r.verdict == if s.Go? then Done else s.verdict
  {
    assert Admitted(f, Some(cfg)) == Admit(n);
    OpeningRead(f, n, slot, o);
    CheckVerdict(f, n, o);
    hide CheckTail, Crypted, Finish, EventOf, Ready, Admitted;
  }
}
