/** What a run of the transparent hook tells user space, and the IV it puts on the wire, stated on the
    bytes of the frame it was given. */
module TransparentEvents {
  import opened Bytes
  import opened Layout
  import opened Kernel
  import opened Hooks
  import opened Stats
  import opened Wire
  import opened TransparentSpec
  import opened TransparentRoundTrip
  import opened TransparentVerdicts
  import opened Clock
  import opened Reports

  // ----- The IV -------------------------------------------------------------------------------

  /** `g` carries the ciphertext of `f`'s padded payload of `n` bytes, and behind it an IV that is the
      clock's eight bytes, least significant first, twice; the body is encrypted under that IV. */
  ghost predicate SealedByClock(f: bytes, n: nat, g: bytes, c: Kernel.Cipher, now: u64) {
    var b := n + (16 - n % 16);
    && |f| >= 42 + n && |g| == |f| + b - n + 24
    && var iv := g[42 + b + 8..42 + b + 24];
       var w := iv[..8];
       && iv == w + w && LittleEndian(w) == now
       && g[42..42 + b] == c.Run(Encrypt, iv, f[42..42 + n] + seq(b - n, _ => (b - n) as byte))
  }

  /** Every successful encrypting run seals by the clock. */
  lemma IvIsTheClock(f: bytes, n: nat, cfg: CryptoConfig, slot: Slot, o: Oracle)
    requires Ready(f, cfg, n) && cfg.action == 1 && Run(f, Some(cfg), slot, o).verdict == Done
    ensures slot.Held? && SealedByClock(f, n, Run(f, Some(cfg), slot, o).frame, slot.cipher, o.now)
  {
    hide *;
    DoneIsEncryptRun(f, n, cfg, slot, o);
    DoneSeals(f, n, cfg, slot, o);
    ClockTwice(o.now);
    SealedIv(f, n, Run(f, Some(cfg), slot, o).frame, slot.cipher, o.now);
  }

  lemma DoneIsEncryptRun(f: bytes, n: nat, cfg: CryptoConfig, slot: Slot, o: Oracle)
    requires Ready(f, cfg, n) && cfg.action == 1
    ensures |f| >= PAYLOAD_OFF + n == 42 + n && Run(f, Some(cfg), slot, o) == EncryptRun(f, n, cfg, slot, o)
  {
    assert Admitted(f, Some(cfg)) == Admit(n);
    hide EncryptRun, DecryptRun;
  }

  lemma SealedIv(f: bytes, n: nat, g: bytes, c: Kernel.Cipher, now: u64)
    requires Sealed(f, n, g, c, IvOf(now))
    requires var w := IvOf(now)[..8]; IvOf(now) == w + w && LittleEndian(w) == now
    ensures SealedByClock(f, n, g, c, now)
  {
    hide HeadersMoved, LittleEndian, IvOf;
    var b := n + (16 - n % 16);
    assert b == BodyLen(n);
    AtAt(g, PAYLOAD_OFF + b, HEADER_BYTES, IV_OFFSET, IV_BYTES);
    assert g[42 + b + 8..42 + b + 24] == IvOf(now);
    PaddedIs(f, n);
    hide PaddedPayload;
  }

  lemma PaddedIs(f: bytes, n: nat)
    requires |f| >= 42 + n
    ensures var b := n + (16 - n % 16);
            PaddedPayload(f, n) == f[42..42 + n] + seq(b - n, _ => (b - n) as byte)
  {
    var b := n + (16 - n % 16);
    assert PaddedPayload(f, n) == f[42..42 + n] + seq(b - n, _ => (b - n) as byte);
  }

  // ----- Events -------------------------------------------------------------------------------

  /** The event of an encrypting run reports its packet, with the start of the ciphertext. */
  lemma EncryptReports(f: bytes, n: nat, cfg: CryptoConfig, slot: Slot, o: Oracle)
    requires Ready(f, cfg, n) && cfg.action == 1 && Run(f, Some(cfg), slot, o).event.Some?
    ensures var b, r := n + (16 - n % 16), Run(f, Some(cfg), slot, o);
            && r.verdict == Done && |r.frame| >= 42 + b
            && Describes(r.event.value, f, cfg, r.frame[42..42 + b], SampleBytes(b, o.event.loads))
  {
    hide *;
    DoneIsEncryptRun(f, n, cfg, slot, o);
    EncryptEvent(f, n, cfg, slot, o);
    DoneSeals(f, n, cfg, slot, o);
    HeaderOfReady(f, n, cfg);
    var g := Run(f, Some(cfg), slot, o).frame;
    SealedKeeps(f, n, g, slot.cipher, IvOf(o.now));
    EventReports(f, g, n, 42, cfg, o.event, g[42..42 + BodyLen(n)]);
  }

  lemma EncryptEvent(f: bytes, n: nat, cfg: CryptoConfig, slot: Slot, o: Oracle)
    requires |f| >= PAYLOAD_OFF + n && EncryptRun(f, n, cfg, slot, o).event.Some?
    ensures var r := EncryptRun(f, n, cfg, slot, o);
            && r.verdict == Done && |r.frame| >= PAYLOAD_OFF + BodyLen(n)
            && r.event == EventOf(r.frame, 34, n, BodyLen(n), 42, cfg, o.event)
    ensures BodyLen(n) == n + (16 - n % 16)
  {
    hide Prepare, Crypted, EventOf;
  }

  lemma HeaderOfReady(f: bytes, n: nat, cfg: CryptoConfig)
    requires Ready(f, cfg, n)
    ensures |f| >= 42 + n && WholeUdpHeader(f) && UdpAt(f) == 34 && UdpLength(f) == 8 + n <= 0xFFFF
  {
    ReadyMeans(f, cfg, n);
    if WholeUdpHeader(f) {
      UdpLengthFits(f);
    }
    hide Ready, Field;
  }

  lemma SealedKeeps(f: bytes, n: nat, g: bytes, c: Kernel.Cipher, iv: bytes)
    requires Sealed(f, n, g, c, iv)
    ensures |f| >= 42 && |g| >= 42 + BodyLen(n) && g[26..34] == f[26..34] && g[34..38] == f[34..38]
    ensures BodyLen(n) <= 0xFFFF && |g[42..42 + BodyLen(n)]| == BodyLen(n)
  {
    hide PaddedPayload;
  }

  /** The event of a decrypting run reports its packet, with the start of the plaintext. */
  lemma DecryptReports(f: bytes, n: nat, cfg: CryptoConfig, slot: Slot, o: Oracle)
    requires Ready(f, cfg, n) && cfg.action == 2 && Run(f, Some(cfg), slot, o).event.Some?
    ensures slot.Held? && |f| >= 42 + n >= 66
    ensures Describes(Run(f, Some(cfg), slot, o).event.value, f, cfg, Opening(f, n, slot.cipher),
                    SampleBytes(n - 24, o.event.loads))
  {
    hide *;
    HeaderOfReady(f, n, cfg);
    DecryptEvent(f, n, cfg, slot, o);
    OpeningRead(f, n, slot, o);
    var t, out := Crypted(f, n - HEADER_BYTES, Decrypt, slot, o).frame, Opening(f, n, slot.cipher);
    PrefixKept(f, t, out, n);
    EventReports(f, t, n, 42, cfg, o.event, out);
  }

  lemma DecryptEvent(f: bytes, n: nat, cfg: CryptoConfig, slot: Slot, o: Oracle)
    requires Ready(f, cfg, n) && cfg.action == 2 && Run(f, Some(cfg), slot, o).event.Some?
    ensures |f| >= 42 + n >= 66 && HEADER_BYTES == 24 && PAYLOAD_OFF == 42
    ensures SealedTail(f, n) && Windowed(slot, o.dynptr) && o.kfunc.ok
    ensures Run(f, Some(cfg), slot, o).event
         == EventOf(Crypted(f, n - HEADER_BYTES, Decrypt, slot, o).frame, 34, n, n - 24, 42, cfg, o.event)
  {
    hide *;
    Offsets();
    DecryptsAt(f, n, cfg, slot, o);
    CheckVerdict(f, n, o);
    CryptVerdict(f, n - HEADER_BYTES, Decrypt, slot, o);
  }

  lemma DecryptsAt(f: bytes, n: nat, cfg: CryptoConfig, slot: Slot, o: Oracle)
    requires Ready(f, cfg, n) && cfg.action == 2 && Run(f, Some(cfg), slot, o).event.Some?
    ensures |f| >= PAYLOAD_OFF + n && CheckTail(f, n, o).Go? && n > HEADER_BYTES
    ensures var t := Crypted(f, n - HEADER_BYTES, Decrypt, slot, o);
            && t.Go?
            && Run(f, Some(cfg), slot, o).event == EventOf(t.frame, 34, n, n - HEADER_BYTES, 42, cfg, o.event)
  {
    assert Admitted(f, Some(cfg)) == Admit(n);
    hide Admitted, CheckTail, Crypted, Finish, EventOf;
  }

  lemma PrefixKept(f: bytes, t: bytes, out: bytes, n: nat)
    requires |t| == |f| >= 42 + n && n >= 24 && |out| == n - 24 && n <= 0xFFFF
    requires forall i :: 0 <= i < 42 ==> t[i] == f[i]
    ensures t[26..34] == f[26..34] && t[34..38] == f[34..38] && |out| <= 0xFFFF
  {
  }
}
