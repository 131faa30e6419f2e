/** What a failing run of the transparent hook leaves on the wire. */
module TransparentFailures {
  import opened Bytes
  import opened Checksum
  import opened Layout
  import opened Kernel
  import opened Hooks
  import opened Stats
  import opened TransparentSpec
  import opened TransparentRoundTrip

  // ----- Decrypting ---------------------------------------------------------------------------

  /** A decrypting run that does not count `crypto_ok` leaves the frame byte for byte as it was,
      unless the kfunc itself failed. */
  lemma FailedDecryptIsClean(f: bytes, cfg: CryptoConfig, slot: Slot, o: Oracle)
    requires cfg.action == ACTION_DECRYPT
    ensures var r := Run(f, Some(cfg), slot, o);
            r.verdict.Pass? || r.verdict.Fail? || r.verdict.Bad? ==> r.frame == f && r.event.None?
  {
    hide Finish, CheckTail, KfuncFrame, EventOf;
  }

  // ----- Before encryption --------------------------------------------------------------------

  /** Which helper calls the steps before encryption need. */
  lemma PrepareGoesIff(f: bytes, n: nat, o: Oracle)
    requires |f| >= PAYLOAD_OFF + n
    ensures Prepare(f, n, o).Go?
            <==> && 1 <= n <= MAX_TRANSPARENT_PAYLOAD && o.grow && o.padStores >= PadLen(n) && o.storeHeader
                 && o.lengths == LengthOracle(true, true, true, true, true, true)
  {
    hide CsumReplace, Splice, Resized, Header, IvOf, PadLen, Moved;
  }

  /** No step before encryption touches the payload, whether it succeeds or not. */
  lemma PrepareKeepsPayload(f: bytes, n: nat, o: Oracle)
    requires |f| >= PAYLOAD_OFF + n
    ensures |Prepare(f, n, o).frame| >= PAYLOAD_OFF + n
    ensures Payload(Prepare(f, n, o).frame, n) == Payload(f, n)
  {
    hide UpdateLengths, Header, IvOf;
    var s := GrowAndPad(f, n, o);
    assert |s.frame| >= PAYLOAD_OFF + n && Payload(s.frame, n) == Payload(f, n);
    if s.Go? && o.storeHeader {
      var h := WithTail(s.frame, BodyLen(n), o.now);
      assert Payload(h, n) == Payload(s.frame, n);
      UpdateLengthsKeeps(h, Delta(n), true, o.lengths, Bad(BadIp), PAYLOAD_OFF, n);
    }
  }

  // ----- Encrypting ---------------------------------------------------------------------------

  lemma EncryptStops(f: bytes, n: nat, cfg: CryptoConfig, slot: Slot, o: Oracle)
    requires Ready(f, cfg, n) && cfg.action == ACTION_ENCRYPT && Prepare(f, n, o).Go?
    requires Crypted(Prepare(f, n, o).frame, BodyLen(n), Encrypt, slot, o).Halt?
    ensures var t := Crypted(Prepare(f, n, o).frame, BodyLen(n), Encrypt, slot, o);
            Run(f, Some(cfg), slot, o) == Outcome(t.frame, t.verdict, None)
  {
    hide Prepare, Crypted, EventOf;
    assert Admitted(f, Some(cfg)) == Admit(n);
  }

  /** The frame leaves as it is before encryption, under the verdict of the missing context or
      window. */
  lemma WindowFails(f: bytes, n: nat, cfg: CryptoConfig, slot: Slot, o: Oracle)
    requires Ready(f, cfg, n) && cfg.action == ACTION_ENCRYPT
    requires Prepare(f, n, o).Go? && WindowFailure(slot, o.dynptr).Some?
    ensures Run(f, Some(cfg), slot, o) == Outcome(Prepare(f, n, o).frame, WindowFailure(slot, o.dynptr).value, None)
  {
    ReadyFits(f, n, cfg);
    hide Prepare, WindowFailure, KfuncFrame, Run, Ready;
    EncryptStops(f, n, cfg, slot, o);
  }

  /** A run that fails between the length update and the kfunc, for want of a context or of a
      window, lets the packet go with the payload in the clear, padded, with the tail header of an
      encrypted one and the lengths already grown: a datagram that the peer takes for sealed. */
  lemma PlaintextLeaves(f: bytes, n: nat, cfg: CryptoConfig, slot: Slot, o: Oracle)
    requires Ready(f, cfg, n) && cfg.action == ACTION_ENCRYPT
    requires Prepare(f, n, o).Go? && WindowFailure(slot, o.dynptr).Some?
    ensures var r := Run(f, Some(cfg), slot, o);
            && r.verdict.Bad? && r.event.None? && |r.frame| == |f| + Delta(n)
            && HeadersMoved(f, r.frame, Delta(n), true) && Ready(r.frame, cfg, n + Delta(n))
            && At(r.frame, PAYLOAD_OFF, BodyLen(n)) == PaddedPayload(f, n)
            && At(r.frame, PAYLOAD_OFF + BodyLen(n), HEADER_BYTES)
               == Header(ACTION_ENCRYPT, BodyLen(n), IvOf(o.now))
  {
    ReadyFits(f, n, cfg);
    hide Run, Prepare, Ready, HeadersMoved, PaddedPayload, WindowFailure;
    WindowFails(f, n, cfg, slot, o);
    PrepareHeaders(f, n, o);
    PrepareBody(f, n, o);
    PrepareTail(f, n, o);
    MovedIsReady(f, n, Prepare(f, n, o).frame, Delta(n), cfg);
  }

  lemma ReadyFits(f: bytes, n: nat, cfg: CryptoConfig)
    requires Ready(f, cfg, n)
    ensures |f| >= PAYLOAD_OFF + n
  {
  }

  /** Unless an encrypting run gets as far as the kfunc, the payload is still there in the clear. */
  lemma FailedEncryptKeepsPayload(f: bytes, n: nat, cfg: CryptoConfig, slot: Slot, o: Oracle)
    requires Ready(f, cfg, n) && cfg.action == ACTION_ENCRYPT
    requires Prepare(f, n, o).Halt? || WindowFailure(slot, o.dynptr).Some?
    ensures var r := Run(f, Some(cfg), slot, o);
            r.verdict.Bad? && |r.frame| >= PAYLOAD_OFF + n && Payload(r.frame, n) == Payload(f, n)
  {
    ReadyFits(f, n, cfg);
    PrepareKeepsPayload(f, n, o);
    if Prepare(f, n, o).Go? {
      hide Run, Prepare, WindowFailure, Payload;
      WindowFails(f, n, cfg, slot, o);
    } else {
      hide Prepare, Crypted, Payload;
      assert Admitted(f, Some(cfg)) == Admit(n);
    }
  }

  /** When only the last store fails, the packet leaves encrypted under the IV of the clock, but
      with whatever the kfunc left in its IV field. */
  lemma IvLost(f: bytes, n: nat, cfg: CryptoConfig, slot: Slot, o: Oracle)
    requires Ready(f, cfg, n) && cfg.action == ACTION_ENCRYPT
    requires Prepare(f, n, o).Go? && WindowFailure(slot, o.dynptr).None? && o.kfunc.ok && !o.restoreIv
    ensures var r := Run(f, Some(cfg), slot, o);
            && r.verdict == Bad(BadMagic) && r.event.None? && |r.frame| == |f| + Delta(n)
            && At(r.frame, PAYLOAD_OFF, BodyLen(n)) == slot.cipher.Run(Encrypt, IvOf(o.now), PaddedPayload(f, n))
            && At(r.frame, PAYLOAD_OFF + BodyLen(n) + IV_OFFSET, IV_BYTES) == LeftIv(o)
  {
    hide *;
    ReadyFits(f, n, cfg);
    PreparedFits(f, n, o);
    PrepareBody(f, n, o);
    UnrestoredLayout(Prepare(f, n, o).frame, BodyLen(n), slot, o);
    EncryptStops(f, n, cfg, slot, o);
  }

  lemma UnrestoredLayout(p: bytes, b: nat, slot: Slot, o: Oracle)
    requires PAYLOAD_OFF + b + HEADER_BYTES <= |p| && b % BLOCK_BYTES == 0
    requires WindowFailure(slot, o.dynptr).None? && o.kfunc.ok && !o.restoreIv
    ensures var s := Crypted(p, b, Encrypt, slot, o);
            var iv := At(p, PAYLOAD_OFF + b + IV_OFFSET, IV_BYTES);
            && s.Halt? && s.verdict == Bad(BadMagic)
            && At(s.frame, PAYLOAD_OFF, b) == slot.cipher.Run(Encrypt, iv, At(p, PAYLOAD_OFF, b))
            && At(s.frame, PAYLOAD_OFF + b + IV_OFFSET, IV_BYTES) == LeftIv(o)
  {
    var iv := At(p, PAYLOAD_OFF + b + IV_OFFSET, IV_BYTES);
    var out := slot.cipher.Run(Encrypt, iv, At(p, PAYLOAD_OFF, b));
    SpliceHit(p, PAYLOAD_OFF, out);
    SpliceMiss(Splice(p, PAYLOAD_OFF, out), PAYLOAD_OFF + b + IV_OFFSET, LeftIv(o), PAYLOAD_OFF, b);
    SpliceHit(Splice(p, PAYLOAD_OFF, out), PAYLOAD_OFF + b + IV_OFFSET, LeftIv(o));
  }

  // ----- Half done ----------------------------------------------------------------------------

  /** What `update_lengths` leaves, also when one of its calls fails: the checksum, the IP length, the
      UDP length and the UDP checksum are stored in this order, each only if all calls before it
      succeeded, and no other byte changes. */
  lemma LengthsPartly(f: bytes, delta: nat, add: bool, o: LengthOracle, v: Verdict)
    requires |f| >= 42
    ensures var g := UpdateLengths(f, delta, add, o, v).frame;
            var ip, udp := Get16(f, 16), Get16(f, 38);
            var one := o.loadIp && o.loadUdp && (add || (ip >= delta && udp >= delta)) && o.csum;
            var newIp, newUdp := (if add then ip + delta else ip - delta) % 0x1_0000,
                                 (if add then udp + delta else udp - delta) % 0x1_0000;
            && |g| == |f|
            && Get16(g, 24) == (if one then CsumReplace(Get16(f, 24), ip, newIp) else Get16(f, 24))
            && Get16(g, 16) == (if one && o.storeIp then newIp else ip)
            && Get16(g, 38) == (if one && o.storeIp && o.storeUdp then newUdp else udp)
            && Get16(g, 40) == (if one && o.storeIp && o.storeUdp && o.storeCheck then 0 else Get16(f, 40))
            && (forall i :: 0 <= i < |f| && !(16 <= i < 18) && !(24 <= i < 26) && !(38 <= i < 42) ==> g[i] == f[i])
  {
    hide UpdateStored, Get16, CsumReplace;
    var ip, udp := Get16(f, 16), Get16(f, 38);
    if o.loadIp && o.loadUdp && (add || (ip >= delta && udp >= delta)) {
      StoredPartly(f, ip, Moved(ip, delta, add), Moved(udp, delta, add), o, v);
    }
  }

  lemma StoredPartly(f: bytes, ip: u16, newIp: u16, newUdp: u16, o: LengthOracle, v: Verdict)
    requires |f| >= 42
    ensures var g := UpdateStored(f, ip, newIp, newUdp, o, v).frame;
            && |g| == |f|
            && Get16(g, 24) == (if o.csum then CsumReplace(Get16(f, 24), ip, newIp) else Get16(f, 24))
            && Get16(g, 16) == (if o.csum && o.storeIp then newIp else Get16(f, 16))
            && Get16(g, 38) == (if o.csum && o.storeIp && o.storeUdp then newUdp else Get16(f, 38))
            && Get16(g, 40) == (if o.csum && o.storeIp && o.storeUdp && o.storeCheck then 0 else Get16(f, 40))
            && (forall i :: 0 <= i < |f| && !(16 <= i < 18) && !(24 <= i < 26) && !(38 <= i < 42) ==> g[i] == f[i])
  {
    hide CsumReplace;
  }

  /** A padding byte that fails to store leaves those before it, and everything up to the end of the
      payload, in a packet that has already grown. */
  lemma PaddingPartly(f: bytes, n: nat, o: Oracle)
    requires |f| >= 42 + n && 1 <= n <= 1408 && o.grow && o.padStores < 16 - n % 16
    ensures var g, pad := Prepare(f, n, o).frame, 16 - n % 16;
            && |g| == |f| + pad + 24 && g[..42 + n] == f[..42 + n]
            && forall i :: 42 + n <= i < 42 + n + o.padStores ==> g[i] == pad
  {
    hide StoreTail;
  }

  /** When the kfunc fails, what it did lies in the body and the IV. */
  lemma FailedCipherKeeps(f: bytes, b: nat, d: Direction, slot: Slot, o: Oracle)
    requires PAYLOAD_OFF + b + HEADER_BYTES <= |f| && Crypted(f, b, d, slot, o).Halt?
    ensures var s := Crypted(f, b, d, slot, o);
            && |s.frame| == |f|
            && (s.verdict != CipherFailed && !(d == Encrypt && s.verdict == Bad(BadMagic)) ==> s.frame == f)
            && forall i :: 0 <= i < |f| && !(42 <= i < 42 + b) && !(42 + b + 8 <= i < 42 + b + 24)
                 ==> s.frame[i] == f[i]
  {
    hide IvOf;
  }
}
