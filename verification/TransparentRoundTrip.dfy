/** Encrypting a datagram in one hook and decrypting it in another gives the datagram back. */
module TransparentRoundTrip {
  import opened Bytes
  import opened Checksum
  import opened Layout
  import opened Kernel
  import opened Hooks
  import opened Stats
  import opened TransparentSpec

  /** The payload with its PKCS#7 padding. */
  function PaddedPayload(f: bytes, n: nat): bytes
    requires |f| >= PAYLOAD_OFF + n
  {
    f[PAYLOAD_OFF..PAYLOAD_OFF + n] + Repeat(PadLen(n), PadLen(n))
  }

  /** The header fields that `update_lengths` rewrites, everything else in the first 42 bytes
      being as it was. */
  ghost predicate HeadersMoved(f: bytes, g: bytes, delta: nat, add: bool)
    requires |f| >= PAYLOAD_OFF && |g| >= PAYLOAD_OFF
  {
    && Get16(g, IP_LEN_AT) == Moved(Get16(f, IP_LEN_AT), delta, add)
    && Get16(g, UDP_LEN_AT) == Moved(Get16(f, UDP_LEN_AT), delta, add)
    && Get16(g, IP_CHECK_AT)
       == CsumReplace(Get16(f, IP_CHECK_AT), Get16(f, IP_LEN_AT), Moved(Get16(f, IP_LEN_AT), delta, add))
    && (forall i :: 0 <= i < PAYLOAD_OFF && !(16 <= i < 18) && !(24 <= i < 26) && !(38 <= i < 42) ==> g[i] == f[i])
  }

  lemma UpdateLengthsLayout(f: bytes, delta: nat, add: bool, o: LengthOracle, v: Verdict)
    requires |f| >= PAYLOAD_OFF
    requires UpdateLengths(f, delta, add, o, v).Go?
    ensures var g := UpdateLengths(f, delta, add, o, v).frame;
            && HeadersMoved(f, g, delta, add) && Get16(g, UDP_CHECK_AT) == 0
            && (forall i :: PAYLOAD_OFF <= i < |f| ==> g[i] == f[i])
  {
    hide CsumReplace, Moved;
    var ipLen := Get16(f, IP_LEN_AT);
    StoredLayout(f, ipLen, Moved(ipLen, delta, add), Moved(Get16(f, UDP_LEN_AT), delta, add), o, v);
  }

  lemma StoredLayout(f: bytes, ipLen: u16, newIp: u16, newUdp: u16, o: LengthOracle, v: Verdict)
    requires |f| >= PAYLOAD_OFF && UpdateStored(f, ipLen, newIp, newUdp, o, v).Go?
    ensures var g := UpdateStored(f, ipLen, newIp, newUdp, o, v).frame;
            && Get16(g, IP_LEN_AT) == newIp && Get16(g, UDP_LEN_AT) == newUdp && Get16(g, UDP_CHECK_AT) == 0
            && Get16(g, IP_CHECK_AT) == CsumReplace(Get16(f, IP_CHECK_AT), ipLen, newIp)
            && (forall i :: 0 <= i < |f| && !(16 <= i < 18) && !(24 <= i < 26) && !(38 <= i < 42) ==> g[i] == f[i])
  {
    hide CsumReplace;
  }

  lemma UpdateLengthsKeeps(f: bytes, delta: nat, add: bool, o: LengthOracle, v: Verdict, lo: nat, n: nat)
    requires PAYLOAD_OFF <= lo && lo + n <= |f|
    ensures At(UpdateLengths(f, delta, add, o, v).frame, lo, n) == At(f, lo, n)
  {
  }

  lemma HeadersMovedFrom(f: bytes, g: bytes, r: bytes, delta: nat, add: bool)
    requires |f| >= PAYLOAD_OFF && |g| >= PAYLOAD_OFF && |r| >= PAYLOAD_OFF
    requires forall i :: 0 <= i < PAYLOAD_OFF ==> g[i] == f[i]
    requires HeadersMoved(g, r, delta, add)
    ensures HeadersMoved(f, r, delta, add)
  {
  }

  /** The packet with all its padding and its tail header. */
  function Framed(f: bytes, n: nat, o: Oracle): (g: bytes)
    requires |f| >= PAYLOAD_OFF + n && n <= MAX_TRANSPARENT_PAYLOAD
    ensures |g| == |f| + Delta(n)
  {
    WithTail(Padded(f, n, PadLen(n), o), BodyLen(n), o.now)
  }

  lemma FramedHeaders(f: bytes, n: nat, o: Oracle)
    requires |f| >= PAYLOAD_OFF + n && n <= MAX_TRANSPARENT_PAYLOAD
    ensures forall i :: 0 <= i < PAYLOAD_OFF ==> Framed(f, n, o)[i] == f[i]
  {
  }

  lemma FramedBody(f: bytes, n: nat, o: Oracle)
    requires |f| >= PAYLOAD_OFF + n && n <= MAX_TRANSPARENT_PAYLOAD
    ensures At(Framed(f, n, o), PAYLOAD_OFF, BodyLen(n)) == PaddedPayload(f, n)
  {
    var b := BodyLen(n);
    var g := Padded(f, n, PadLen(n), o);
    assert At(g, PAYLOAD_OFF, b) == PaddedPayload(f, n);
    SpliceMiss(g, PAYLOAD_OFF + b, Header(ACTION_ENCRYPT, b, IvOf(o.now)), PAYLOAD_OFF, b);
  }

  lemma FramedTail(f: bytes, n: nat, o: Oracle)
    requires |f| >= PAYLOAD_OFF + n && n <= MAX_TRANSPARENT_PAYLOAD
    ensures At(Framed(f, n, o), PAYLOAD_OFF + BodyLen(n), HEADER_BYTES)
            == Header(ACTION_ENCRYPT, BodyLen(n), IvOf(o.now))
  {
    var b := BodyLen(n);
    SpliceHit(Padded(f, n, PadLen(n), o), PAYLOAD_OFF + b, Header(ACTION_ENCRYPT, b, IvOf(o.now)));
  }

  lemma PrepareSucceeds(f: bytes, n: nat, o: Oracle)
    requires |f| >= PAYLOAD_OFF + n && 1 <= n <= MAX_TRANSPARENT_PAYLOAD && AllSucceed(o)
    ensures Prepare(f, n, o).Go?
  {
  }

  lemma PrepareGoes(f: bytes, n: nat, o: Oracle)
    requires |f| >= PAYLOAD_OFF + n && n <= MAX_TRANSPARENT_PAYLOAD && Prepare(f, n, o).Go?
    ensures Prepare(f, n, o) == UpdateLengths(Framed(f, n, o), Delta(n), true, o.lengths, Bad(BadIp))
  {
    hide UpdateLengths, Padded, WithTail;
  }

  lemma PrepareHeaders(f: bytes, n: nat, o: Oracle)
    requires |f| >= PAYLOAD_OFF + n && n <= MAX_TRANSPARENT_PAYLOAD && Prepare(f, n, o).Go?
    ensures HeadersMoved(f, Prepare(f, n, o).frame, Delta(n), true)
  {
    hide Prepare, Framed, UpdateLengths;
    var g := Framed(f, n, o);
    FramedHeaders(f, n, o);
    PrepareGoes(f, n, o);
    UpdateLengthsLayout(g, Delta(n), true, o.lengths, Bad(BadIp));
    HeadersMovedFrom(f, g, Prepare(f, n, o).frame, Delta(n), true);
  }

  lemma PrepareKeeps(f: bytes, n: nat, o: Oracle, lo: nat, m: nat)
    requires |f| >= PAYLOAD_OFF + n && n <= MAX_TRANSPARENT_PAYLOAD && Prepare(f, n, o).Go?
    requires PAYLOAD_OFF <= lo && lo + m <= |f| + Delta(n)
    ensures At(Prepare(f, n, o).frame, lo, m) == At(Framed(f, n, o), lo, m)
  {
    hide Prepare, Framed, UpdateLengths;
    PrepareGoes(f, n, o);
    UpdateLengthsKeeps(Framed(f, n, o), Delta(n), true, o.lengths, Bad(BadIp), lo, m);
  }

  /** Just before encryption the padded payload and the tail header lie side by side. */
  lemma PrepareBody(f: bytes, n: nat, o: Oracle)
    requires |f| >= PAYLOAD_OFF + n && n <= MAX_TRANSPARENT_PAYLOAD && Prepare(f, n, o).Go?
    ensures At(Prepare(f, n, o).frame, PAYLOAD_OFF, BodyLen(n)) == PaddedPayload(f, n)
  {
    hide Prepare, Framed, PaddedPayload;
    FramedBody(f, n, o);
    PrepareKeeps(f, n, o, PAYLOAD_OFF, BodyLen(n));
  }

  lemma PrepareTail(f: bytes, n: nat, o: Oracle)
    requires |f| >= PAYLOAD_OFF + n && n <= MAX_TRANSPARENT_PAYLOAD && Prepare(f, n, o).Go?
    ensures At(Prepare(f, n, o).frame, PAYLOAD_OFF + BodyLen(n), HEADER_BYTES)
            == Header(ACTION_ENCRYPT, BodyLen(n), IvOf(o.now))
  {
    hide Prepare, Framed;
    FramedTail(f, n, o);
    PrepareKeeps(f, n, o, PAYLOAD_OFF + BodyLen(n), HEADER_BYTES);
  }

  /** The IV field of the tail header holds the IV that the kfunc is to use. */
  lemma PreparedFits(f: bytes, n: nat, o: Oracle)
    requires |f| >= PAYLOAD_OFF + n && Prepare(f, n, o).Go?
    ensures var p, b := Prepare(f, n, o).frame, BodyLen(n);
            && n <= MAX_TRANSPARENT_PAYLOAD && b % BLOCK_BYTES == 0
            && |p| == |f| + Delta(n) >= PAYLOAD_OFF + b + HEADER_BYTES
            && PAYLOAD_OFF + b + IV_OFFSET + IV_BYTES <= |p|
            && At(p, PAYLOAD_OFF + b + IV_OFFSET, IV_BYTES) == IvOf(o.now)
  {
    hide Prepare, IvOf;
    var p, b := Prepare(f, n, o).frame, BodyLen(n);
    PrepareTail(f, n, o);
    AtAt(p, PAYLOAD_OFF + b, HEADER_BYTES, IV_OFFSET, IV_BYTES);
  }

  /** What the kfunc leaves in the IV field. */
  function LeftIv(o: Oracle): (iv: bytes)
    ensures |iv| == IV_BYTES
  {
    seq<byte>(IV_BYTES, i requires 0 <= i => o.kfunc.iv(i))
  }

  /** The kfunc changes the body window and the IV window and nothing else. */
  lemma CipherLayout(f: bytes, b: nat, d: Direction, slot: Slot, o: Oracle)
    requires PAYLOAD_OFF + b + HEADER_BYTES <= |f| && b % BLOCK_BYTES == 0
    requires Crypted(f, b, d, slot, o).Go?
    ensures slot.Held?
    ensures var s := Crypted(f, b, d, slot, o);
            var ivAt := PAYLOAD_OFF + b + IV_OFFSET;
            && (forall i :: 0 <= i < PAYLOAD_OFF ==> s.frame[i] == f[i])
            && At(s.frame, PAYLOAD_OFF, b) == slot.cipher.Run(d, At(f, ivAt, IV_BYTES), At(f, PAYLOAD_OFF, b))
            && At(s.frame, PAYLOAD_OFF + b, IV_OFFSET) == At(f, PAYLOAD_OFF + b, IV_OFFSET)
            && (d == Encrypt ==> At(s.frame, ivAt, IV_BYTES) == IvOf(o.now))
  {
    var ivAt := PAYLOAD_OFF + b + IV_OFFSET;
    var out := slot.cipher.Run(d, At(f, ivAt, IV_BYTES), At(f, PAYLOAD_OFF, b));
    var left := seq<byte>(IV_BYTES, i requires i >= 0 => o.kfunc.iv(i));
    var g := Splice(f, PAYLOAD_OFF, out);
    SpliceHit(f, PAYLOAD_OFF, out);
    SpliceMiss(g, ivAt, left, PAYLOAD_OFF, b);
    if d == Encrypt {
      SpliceMiss(Splice(g, ivAt, left), ivAt, IvOf(o.now), PAYLOAD_OFF, b);
      SpliceHit(Splice(g, ivAt, left), ivAt, IvOf(o.now));
    }
  }

  lemma CryptedLayout(f: bytes, b: nat, d: Direction, slot: Slot, o: Oracle)
    requires PAYLOAD_OFF + b + HEADER_BYTES <= |f| && b % BLOCK_BYTES == 0
    requires slot.Held? && AllSucceed(o)
    ensures var s := Crypted(f, b, d, slot, o);
            var ivAt := PAYLOAD_OFF + b + IV_OFFSET;
            && s.Go?
            && (forall i :: 0 <= i < PAYLOAD_OFF ==> s.frame[i] == f[i])
            && At(s.frame, PAYLOAD_OFF, b) == slot.cipher.Run(d, At(f, ivAt, IV_BYTES), At(f, PAYLOAD_OFF, b))
            && At(s.frame, PAYLOAD_OFF + b, IV_OFFSET) == At(f, PAYLOAD_OFF + b, IV_OFFSET)
            && (d == Encrypt ==> At(s.frame, ivAt, IV_BYTES) == IvOf(o.now))
  {
    assert Crypted(f, b, d, slot, o).Go?;
    hide Crypted;
    CipherLayout(f, b, d, slot, o);
  }

  /** `g` is `f` sealed under cipher `c`: lengths and checksum moved, the ciphertext of the padded
      payload, and the tail header with the IV. The UDP checksum and any link-layer trailer are
      left open. */
  ghost predicate Sealed(f: bytes, n: nat, g: bytes, c: Kernel.Cipher, iv: bytes) {
    && |iv| == IV_BYTES && 1 <= n <= MAX_TRANSPARENT_PAYLOAD
    && |f| >= PAYLOAD_OFF + n && |g| == |f| + Delta(n)
    && HeadersMoved(f, g, Delta(n), true)
    && At(g, PAYLOAD_OFF, BodyLen(n)) == c.Run(Encrypt, iv, PaddedPayload(f, n))
    && At(g, PAYLOAD_OFF + BodyLen(n), HEADER_BYTES) == Header(ACTION_ENCRYPT, BodyLen(n), iv)
  }

  /** A successful encrypting run seals the frame. */
  lemma EncryptSeals(f: bytes, n: nat, cfg: CryptoConfig, slot: Slot, o: Oracle)
    requires |f| >= PAYLOAD_OFF + n && 1 <= n <= MAX_TRANSPARENT_PAYLOAD
    requires slot.Held? && AllSucceed(o)
    ensures EncryptRun(f, n, cfg, slot, o).verdict == Done
    ensures Sealed(f, n, EncryptRun(f, n, cfg, slot, o).frame, slot.cipher, IvOf(o.now))
  {
    hide *;
    PrepareSucceeds(f, n, o);
    PreparedFits(f, n, o);
    CryptedLayout(Prepare(f, n, o).frame, BodyLen(n), Encrypt, slot, o);
    EncryptGoes(f, n, cfg, slot, o);
    DoneSeals(f, n, cfg, slot, o);
  }

  /** ... and none succeeds without sealing it. */
  lemma DoneSeals(f: bytes, n: nat, cfg: CryptoConfig, slot: Slot, o: Oracle)
    requires |f| >= PAYLOAD_OFF + n && EncryptRun(f, n, cfg, slot, o).verdict == Done
    ensures slot.Held? && Sealed(f, n, EncryptRun(f, n, cfg, slot, o).frame, slot.cipher, IvOf(o.now))
  {
    hide *;
    DoneGoes(f, n, cfg, slot, o);
    var p, b := Prepare(f, n, o).frame, BodyLen(n);
    PreparedFits(f, n, o);
    PrepareHeaders(f, n, o);
    PrepareBody(f, n, o);
    PrepareTail(f, n, o);
    CipherLayout(p, b, Encrypt, slot, o);
    SealedFromParts(f, n, p, Crypted(p, b, Encrypt, slot, o).frame, slot.cipher, IvOf(o.now));
  }

  lemma DoneGoes(f: bytes, n: nat, cfg: CryptoConfig, slot: Slot, o: Oracle)
    requires |f| >= PAYLOAD_OFF + n && EncryptRun(f, n, cfg, slot, o).verdict == Done
    ensures Prepare(f, n, o).Go? && 1 <= n <= MAX_TRANSPARENT_PAYLOAD
    ensures var t := Crypted(Prepare(f, n, o).frame, BodyLen(n), Encrypt, slot, o);
            t.Go? && EncryptRun(f, n, cfg, slot, o).frame == t.frame
  {
    hide Prepare, Crypted, EventOf;
  }

  lemma EncryptGoes(f: bytes, n: nat, cfg: CryptoConfig, slot: Slot, o: Oracle)
    requires |f| >= PAYLOAD_OFF + n && Prepare(f, n, o).Go?
    requires Crypted(Prepare(f, n, o).frame, BodyLen(n), Encrypt, slot, o).Go?
    ensures EncryptRun(f, n, cfg, slot, o).verdict == Done
    ensures EncryptRun(f, n, cfg, slot, o).frame == Crypted(Prepare(f, n, o).frame, BodyLen(n), Encrypt, slot, o).frame
  {
    hide Prepare, Crypted, EventOf;
  }

  lemma SealedFromParts(f: bytes, n: nat, p: bytes, r: bytes, c: Kernel.Cipher, iv: bytes)
    requires |f| >= PAYLOAD_OFF + n && 1 <= n <= MAX_TRANSPARENT_PAYLOAD && |r| == |p| == |f| + Delta(n)
    requires HeadersMoved(f, p, Delta(n), true) && |iv| == IV_BYTES
    requires At(p, PAYLOAD_OFF + BodyLen(n), HEADER_BYTES) == Header(ACTION_ENCRYPT, BodyLen(n), iv)
    requires forall i :: 0 <= i < PAYLOAD_OFF ==> r[i] == p[i]
    requires At(r, PAYLOAD_OFF, BodyLen(n)) == c.Run(Encrypt, iv, PaddedPayload(f, n))
    requires At(r, PAYLOAD_OFF + BodyLen(n), IV_OFFSET) == At(p, PAYLOAD_OFF + BodyLen(n), IV_OFFSET)
    requires At(r, PAYLOAD_OFF + BodyLen(n) + IV_OFFSET, IV_BYTES) == iv
    ensures Sealed(f, n, r, c, iv)
  {
    hide PaddedPayload, Get16, CsumReplace;
    var b := BodyLen(n);
    var h := Header(ACTION_ENCRYPT, b, iv);
    AtAt(p, PAYLOAD_OFF + b, HEADER_BYTES, 0, IV_OFFSET);
    AtSplit(r, PAYLOAD_OFF + b, IV_OFFSET, IV_BYTES);
    assert h == At(h, 0, IV_OFFSET) + h[IV_OFFSET..];
    SameHeadersMoved(f, p, r, Delta(n));
  }

  lemma SameHeadersMoved(f: bytes, p: bytes, r: bytes, delta: nat)
    requires |f| >= PAYLOAD_OFF && |p| >= PAYLOAD_OFF && |r| >= PAYLOAD_OFF && HeadersMoved(f, p, delta, true)
    requires forall i :: 0 <= i < PAYLOAD_OFF ==> r[i] == p[i]
    ensures HeadersMoved(f, r, delta, true)
  {
    hide CsumReplace, Moved;
  }

  /** The frames agree on their first `end` bytes, the UDP checksum aside. */
  ghost predicate SameUpTo(a: bytes, b: bytes, end: nat) {
    |a| == |b| && end <= |a| && forall i :: 0 <= i < end && i != 40 && i != 41 ==> a[i] == b[i]
  }

  lemma SealedStable(f: bytes, n: nat, g: bytes, g': bytes, c: Kernel.Cipher, iv: bytes)
    requires Sealed(f, n, g, c, iv)
    requires SameUpTo(g, g', PAYLOAD_OFF + n + Delta(n))
    ensures Sealed(f, n, g', c, iv)
  {
    assert At(g', PAYLOAD_OFF, BodyLen(n)) == At(g, PAYLOAD_OFF, BodyLen(n));
    assert At(g', PAYLOAD_OFF + BodyLen(n), HEADER_BYTES) == At(g, PAYLOAD_OFF + BodyLen(n), HEADER_BYTES);
  }

  // ----- Opening ------------------------------------------------------------------------------

  /** Moving the lengths keeps a frame admissible, with its payload grown by `delta`. */
  lemma MovedIsReady(f: bytes, n: nat, g: bytes, delta: nat, cfg: CryptoConfig)
    requires Ready(f, cfg, n) && |g| == |f| + delta && n + delta + UDP_BYTES <= 0xFFFF
    requires HeadersMoved(f, g, delta, true)
    ensures Ready(g, cfg, n + delta)
  {
    MovedFields(f, g, delta);
    hide Get16, HeadersMoved, UdpLen, UdpDest, EthProto, Protocol, Ihl, HeadersFit;
  }

  lemma MovedFields(f: bytes, g: bytes, delta: nat)
    requires |f| >= PAYLOAD_OFF && |g| >= PAYLOAD_OFF && Ihl(f) == 5 && HeadersMoved(f, g, delta, true)
    ensures Ihl(g) == 5 && EthProto(g) == EthProto(f) && Get16(g, 20) == Get16(f, 20) && Protocol(g) == Protocol(f)
    ensures HeadersFit(f) && HeadersFit(g) && UdpDest(g) == UdpDest(f)
    ensures UdpLen(f) + delta <= 0xFFFF ==> UdpLen(g) == UdpLen(f) + delta
  {
    hide CsumReplace;
    assert UdpLen(g) == Get16(g, UDP_LEN_AT) && UdpLen(f) == Get16(f, UDP_LEN_AT);
    assert Get16(g, 36) == Get16(f, 36);
  }

  /** A sealed frame passes admission and the tail checks of a decrypting hook on the same port. */
  lemma SealedIsAdmitted(f: bytes, n: nat, g: bytes, c: Kernel.Cipher, iv: bytes,
                         cfg: CryptoConfig, o: Oracle)
    requires Ready(f, cfg, n) && Sealed(f, n, g, c, iv) && AllSucceed(o)
    ensures Ready(g, cfg, n + Delta(n))
    ensures CheckTail(g, n + Delta(n), o) == Go(g)
  {
    SealedMoves(f, n, g, c, iv, cfg);
    hide *;
    MovedIsReady(f, n, g, Delta(n), cfg);
    SealedIsLong(f, n, g, c, iv);
    TailPasses(g, BodyLen(n), iv, o);
  }

  lemma SealedMoves(f: bytes, n: nat, g: bytes, c: Kernel.Cipher, iv: bytes, cfg: CryptoConfig)
    requires Ready(f, cfg, n) && Sealed(f, n, g, c, iv)
    ensures |f| >= PAYLOAD_OFF && |g| == |f| + Delta(n) && n + Delta(n) + UDP_BYTES <= 0xFFFF
    ensures HeadersMoved(f, g, Delta(n), true) && |iv| == IV_BYTES
    ensures PAYLOAD_OFF + BodyLen(n) + HEADER_BYTES <= |g| && BodyLen(n) <= 0xFFFF
    ensures At(g, PAYLOAD_OFF + BodyLen(n), HEADER_BYTES) == Header(ACTION_ENCRYPT, BodyLen(n), iv)
  {
    hide Ready, HeadersMoved, PaddedPayload;
    assert |f| >= PAYLOAD_OFF + n;
  }

  lemma TailPasses(g: bytes, b: u16, iv: bytes, o: Oracle)
    requires |iv| == IV_BYTES && PAYLOAD_OFF + b + HEADER_BYTES <= |g| && b > 0 && b % BLOCK_BYTES == 0 && AllSucceed(o)
    requires At(g, PAYLOAD_OFF + b, HEADER_BYTES) == Header(ACTION_ENCRYPT, b, iv)
    ensures CheckTail(g, b + HEADER_BYTES, o) == Go(g)
  {
    hide Header, Get16, Get32;
  }

  /** Decryption brings the padded payload back, below the moved headers. */
  lemma OpenBody(f: bytes, n: nat, g: bytes, slot: Slot, iv: bytes, o: Oracle)
    requires slot.Held? && Sealed(f, n, g, slot.cipher, iv) && AllSucceed(o)
    ensures var s := Crypted(g, BodyLen(n), Decrypt, slot, o);
            && s.Go? && |s.frame| == |g|
            && (forall i :: 0 <= i < PAYLOAD_OFF ==> s.frame[i] == g[i])
            && At(s.frame, PAYLOAD_OFF, BodyLen(n)) == PaddedPayload(f, n)
  {
    hide Crypted;
    var b := BodyLen(n);
    CryptedLayout(g, b, Decrypt, slot, o);
    AtAt(g, PAYLOAD_OFF + b, HEADER_BYTES, IV_OFFSET, IV_BYTES);
    assert At(g, PAYLOAD_OFF + b + IV_OFFSET, IV_BYTES) == iv;
  }

  /** The IP total length survives the addition without wrapping. */
  predicate NoWrap(f: bytes, delta: nat)
    requires |f| >= PAYLOAD_OFF
  {
    Get16(f, IP_LEN_AT) + delta <= 0xFFFF
  }

  /** The headers of `f` with the checksum field as it comes back from two updates. */
  ghost predicate HeadersBack(f: bytes, h: bytes)
    requires |f| >= PAYLOAD_OFF && |h| >= PAYLOAD_OFF
  {
    && (forall i :: 0 <= i < PAYLOAD_OFF && !(24 <= i < 26) && !(40 <= i < 42) ==> h[i] == f[i])
    && Get16(h, IP_CHECK_AT) == (if Get16(f, IP_CHECK_AT) == 0xFFFF then 0 else Get16(f, IP_CHECK_AT))
  }

  lemma SameFields(a: bytes, b: bytes, at: nat)
    requires at + 2 <= |a| && at + 2 <= |b| && Get16(a, at) == Get16(b, at)
    ensures a[at] == b[at] && a[at + 1] == b[at + 1]
  {
  }

  lemma MovedBack(x: u16, delta: nat)
    requires delta <= 40
    ensures Moved(Moved(x, delta, true), delta, false) == x
    ensures Moved(x, delta, true) < delta <==> x + delta > 0xFFFF
  {
  }

  /** `update_lengths` there and back. */
  lemma HeadersMovedBack(f: bytes, g: bytes, h: bytes, delta: nat)
    requires |f| >= PAYLOAD_OFF && |g| >= PAYLOAD_OFF && |h| >= PAYLOAD_OFF && delta <= 40
    requires HeadersMoved(f, g, delta, true) && HeadersMoved(g, h, delta, false)
    ensures HeadersBack(f, h)
  {
    MovedBack(Get16(f, IP_LEN_AT), delta);
    MovedBack(Get16(f, UDP_LEN_AT), delta);
    CsumReplaceUndone(Get16(f, IP_CHECK_AT), Get16(f, IP_LEN_AT), Get16(g, IP_LEN_AT));
    SameFields(f, h, IP_LEN_AT);
    SameFields(f, h, UDP_LEN_AT);
  }

  /** The payload window of a frame. */
  function Payload(f: bytes, n: nat): bytes
    requires |f| >= PAYLOAD_OFF + n
  {
    At(f, PAYLOAD_OFF, n)
  }

  lemma PadByte(f: bytes, n: nat, t: bytes)
    requires |f| >= PAYLOAD_OFF + n && |t| >= PAYLOAD_OFF + BodyLen(n)
    requires At(t, PAYLOAD_OFF, BodyLen(n)) == PaddedPayload(f, n)
    ensures t[PAYLOAD_OFF + BodyLen(n) - 1] == PadLen(n)
    ensures Payload(t, n) == Payload(f, n)
  {
    var b := BodyLen(n);
    assert t[PAYLOAD_OFF + b - 1] == At(t, PAYLOAD_OFF, b)[b - 1];
    AtAt(t, PAYLOAD_OFF, b, 0, n);
    assert At(PaddedPayload(f, n), 0, n) == Payload(f, n);
  }

  lemma ResizedPayload(t: bytes, n: nat, m: nat, fill: nat -> byte)
    requires |t| >= PAYLOAD_OFF + n && m >= PAYLOAD_OFF + n
    ensures Payload(Resized(t, m, fill), n) == Payload(t, n)
  {
  }

  /** The last byte of an opened body says how much to cut, and the cut packet starts with the
      original payload. */
  lemma FinishCuts(f: bytes, n: nat, t: bytes, o: Oracle)
    requires |f| >= PAYLOAD_OFF + n && n >= 1 && |t| == |f| + Delta(n) && AllSucceed(o)
    requires At(t, PAYLOAD_OFF, BodyLen(n)) == PaddedPayload(f, n)
    ensures Finish(t, BodyLen(n), o)
         == UpdateLengths(Resized(t, |f|, o.fill), Delta(n), false, o.lengths, DoneThenFail)
    ensures Payload(Resized(t, |f|, o.fill), n) == Payload(f, n)
  {
    hide UpdateLengths, PaddedPayload;
    PadByte(f, n, t);
    ResizedPayload(t, n, |f|, o.fill);
  }

  /** Shrinking the lengths succeeds exactly when growing them did not wrap; then the headers are
      those before sealing. */
  lemma LengthsBack(f: bytes, g: bytes, r: bytes, delta: nat, o: LengthOracle, v: Verdict)
    requires |f| >= PAYLOAD_OFF && |g| >= PAYLOAD_OFF && |r| >= PAYLOAD_OFF && delta <= 40
    requires o == LengthOracle(true, true, true, true, true, true)
    requires HeadersMoved(f, g, delta, true) && Get16(f, UDP_LEN_AT) + delta <= 0xFFFF
    requires forall i :: 0 <= i < PAYLOAD_OFF ==> r[i] == g[i]
    ensures var s := UpdateLengths(r, delta, false, o, v);
            && (NoWrap(f, delta) ==> s.Go? && HeadersBack(f, s.frame) && Get16(s.frame, UDP_CHECK_AT) == 0)
            && (!NoWrap(f, delta) ==> s == Halt(r, v))
  {
    MovedBack(Get16(f, IP_LEN_AT), delta);
    MovedBack(Get16(f, UDP_LEN_AT), delta);
    var s := UpdateLengths(r, delta, false, o, v);
    if NoWrap(f, delta) {
      UpdateLengthsLayout(r, delta, false, o, v);
      HeadersMovedFrom(g, r, s.frame, delta, false);
      HeadersMovedBack(f, g, s.frame, delta);
    }
  }

  /** A decrypting hook takes a sealed frame all the way to cutting it. */
  lemma SealedIsDecrypted(f: bytes, n: nat, g: bytes, cfg: CryptoConfig, slot: Slot, iv: bytes, o: Oracle)
    requires Ready(f, cfg, n) && cfg.action == ACTION_DECRYPT && slot.Held? && AllSucceed(o)
    requires Sealed(f, n, g, slot.cipher, iv)
    ensures Crypted(g, BodyLen(n), Decrypt, slot, o).Go?
    ensures var s := Finish(Crypted(g, BodyLen(n), Decrypt, slot, o).frame, BodyLen(n), o);
            var r := Run(g, Some(cfg), slot, o);
            r.frame == s.frame && r.verdict == if s.Go? then Done else s.verdict
  {
    hide *;
    SealedIsAdmitted(f, n, g, slot.cipher, iv, cfg, o);
    SealedIsLong(f, n, g, slot.cipher, iv);
    CryptedLayout(g, BodyLen(n), Decrypt, slot, o);
    DecryptsWhenReady(g, n + Delta(n), cfg, slot, o);
  }

  lemma SealedIsLong(f: bytes, n: nat, g: bytes, c: Kernel.Cipher, iv: bytes)
    requires Sealed(f, n, g, c, iv)
    ensures PAYLOAD_OFF + BodyLen(n) + HEADER_BYTES <= |g| && BodyLen(n) > 0 && BodyLen(n) % BLOCK_BYTES == 0
    ensures BodyLen(n) + HEADER_BYTES == n + Delta(n) > HEADER_BYTES
  {
  }

  lemma DecryptsWhenReady(g: bytes, m: nat, cfg: CryptoConfig, slot: Slot, o: Oracle)
    requires Ready(g, cfg, m) && cfg.action == ACTION_DECRYPT && m > HEADER_BYTES
    requires CheckTail(g, m, o) == Go(g) && Crypted(g, m - HEADER_BYTES, Decrypt, slot, o).Go?
    ensures var b := m - HEADER_BYTES;
            var s := Finish(Crypted(g, b, Decrypt, slot, o).frame, b, o);
            var r := Run(g, Some(cfg), slot, o);
            r.frame == s.frame && r.verdict == if s.Go? then Done else s.verdict
  {
    hide Crypted, Finish, CheckTail, EventOf;
    assert Admitted(g, Some(cfg)) == Admit(m);
  }

  /** What a decrypting run makes of a frame `g` that seals `f`. */
  ghost predicate Opened(f: bytes, n: nat, g: bytes, verdict: Verdict, d: bytes)
    requires |f| >= PAYLOAD_OFF + n && |g| >= PAYLOAD_OFF
  {
    && verdict == (if NoWrap(f, Delta(n)) then Done else DoneThenFail)
    && |d| == |f| && Payload(d, n) == Payload(f, n)
    && (NoWrap(f, Delta(n)) ==> HeadersBack(f, d) && Get16(d, UDP_CHECK_AT) == 0)
    && (!NoWrap(f, Delta(n)) ==> |d| >= PAYLOAD_OFF && forall i :: 0 <= i < PAYLOAD_OFF ==> d[i] == g[i])
  }

  lemma FinishOpens(f: bytes, n: nat, g: bytes, t: bytes, o: Oracle)
    requires |f| >= PAYLOAD_OFF + n && n >= 1 && |t| == |f| + Delta(n) && |g| >= PAYLOAD_OFF && AllSucceed(o)
    requires At(t, PAYLOAD_OFF, BodyLen(n)) == PaddedPayload(f, n)
    requires HeadersMoved(f, g, Delta(n), true) && Get16(f, UDP_LEN_AT) + Delta(n) <= 0xFFFF
    requires forall i :: 0 <= i < PAYLOAD_OFF ==> t[i] == g[i]
    ensures var s := Finish(t, BodyLen(n), o);
            Opened(f, n, g, if s.Go? then Done else s.verdict, s.frame)
  {
    hide Finish, UpdateLengths, PaddedPayload;
    var r := Resized(t, |f|, o.fill);
    FinishCuts(f, n, t, o);
    LengthsBack(f, g, r, Delta(n), o.lengths, DoneThenFail);
    UpdateLengthsKeeps(r, Delta(n), false, o.lengths, DoneThenFail, PAYLOAD_OFF, n);
  }

  /** A whole decrypting run on a sealed frame. */
  lemma DecryptOpens(f: bytes, n: nat, g: bytes, cfg: CryptoConfig, slot: Slot, iv: bytes, o: Oracle)
    requires Ready(f, cfg, n) && cfg.action == ACTION_DECRYPT && slot.Held? && AllSucceed(o)
    requires Sealed(f, n, g, slot.cipher, iv)
    ensures var r := Run(g, Some(cfg), slot, o);
            Opened(f, n, g, r.verdict, r.frame)
  {
    hide Run, Crypted, Finish;
    SealedIsDecrypted(f, n, g, cfg, slot, iv, o);
    OpenBody(f, n, g, slot, iv, o);
    FinishOpens(f, n, g, Crypted(g, BodyLen(n), Decrypt, slot, o).frame, o);
  }

  // ----- The round trip -----------------------------------------------------------------------

  lemma RunSeals(f: bytes, n: nat, cfg: CryptoConfig, slot: Slot, o: Oracle)
    requires Sealable(f, cfg, n) && cfg.action == ACTION_ENCRYPT && slot.Held? && AllSucceed(o)
    ensures Run(f, Some(cfg), slot, o).verdict == Done
    ensures Sealed(f, n, Run(f, Some(cfg), slot, o).frame, slot.cipher, IvOf(o.now))
  {
    hide EncryptRun, DecryptRun;
    EncryptSeals(f, n, cfg, slot, o);
    assert Admitted(f, Some(cfg)) == Admit(n);
  }

  /** A frame a transparent hook will encrypt. */
  predicate Sealable(f: bytes, cfg: CryptoConfig, n: nat) {
    Ready(f, cfg, n) && 1 <= n <= MAX_TRANSPARENT_PAYLOAD
  }

  /** `b` is the configuration of the peer: decrypting, same port. */
  predicate Peers(a: CryptoConfig, b: CryptoConfig) {
    && a.action == ACTION_ENCRYPT && b.action == ACTION_DECRYPT
    && a.algo == ALGO_CBC_AES && b.algo == ALGO_CBC_AES && a.udpPort == b.udpPort
  }

  /** Seen from the end of the UDP payload, the round trip is the identity up to the UDP checksum
      exactly when the IP length has room for the padding and the tail and the IP checksum field
      is not 0xFFFF. The payload itself always comes back, whatever the kfuncs leave in the IV
      field, the clock, the new bytes and any link-layer trailer. */
  lemma RoundTrip(f: bytes, n: nat, enc: CryptoConfig, dec: CryptoConfig, slot: Slot, o: Oracle, o': Oracle)
    requires Sealable(f, enc, n) && Peers(enc, dec) && slot.Held? && AllSucceed(o) && AllSucceed(o')
    ensures var e := Run(f, Some(enc), slot, o);
            var d := Run(e.frame, Some(dec), slot, o');
            && e.verdict == Done && |e.frame| == |f| + Delta(n)
            && d.verdict == (if NoWrap(f, Delta(n)) then Done else DoneThenFail)
            && |d.frame| == |f| && Payload(d.frame, n) == Payload(f, n)
            && (SameUpTo(f, d.frame, PAYLOAD_OFF + n)
                <==> NoWrap(f, Delta(n)) && Get16(f, IP_CHECK_AT) != 0xFFFF)
  {
    hide Run;
    RunSeals(f, n, enc, slot, o);
    var e := Run(f, Some(enc), slot, o);
    DecryptOpens(f, n, e.frame, dec, slot, IvOf(o.now), o');
    OpenedIff(f, n, e.frame, Run(e.frame, Some(dec), slot, o'));
  }

  lemma OpenedIff(f: bytes, n: nat, g: bytes, d: Outcome)
    requires |f| >= PAYLOAD_OFF + n && |g| >= PAYLOAD_OFF && HeadersMoved(f, g, Delta(n), true)
    requires Opened(f, n, g, d.verdict, d.frame)
    ensures SameUpTo(f, d.frame, PAYLOAD_OFF + n) <==> NoWrap(f, Delta(n)) && Get16(f, IP_CHECK_AT) != 0xFFFF
  {
    if NoWrap(f, Delta(n)) {
      SameUpToFromParts(f, d.frame, n);
    } else {
      assert Get16(d.frame, IP_LEN_AT) == Get16(g, IP_LEN_AT) != Get16(f, IP_LEN_AT);
      assert !(d.frame[16] == f[16] && d.frame[17] == f[17]);
    }
  }

  lemma SameUpToFromParts(f: bytes, d: bytes, n: nat)
    requires |d| == |f| >= PAYLOAD_OFF + n
    requires HeadersBack(f, d) && Payload(d, n) == Payload(f, n)
    ensures SameUpTo(f, d, PAYLOAD_OFF + n) <==> Get16(f, IP_CHECK_AT) != 0xFFFF
  {
    if Get16(f, IP_CHECK_AT) != 0xFFFF {
      SameFields(f, d, IP_CHECK_AT);
      forall i | 0 <= i < PAYLOAD_OFF + n && i != 40 && i != 41
        ensures f[i] == d[i]
      {
        if i >= PAYLOAD_OFF {
          assert Payload(d, n)[i - PAYLOAD_OFF] == Payload(f, n)[i - PAYLOAD_OFF];
        }
      }
    } else {
      assert d[24] != f[24];
    }
  }

  /** Without a link-layer trailer the whole frame comes back, its UDP checksum zeroed. */
  lemma RoundTripWholeFrame(f: bytes, n: nat, enc: CryptoConfig, dec: CryptoConfig, slot: Slot,
                            o: Oracle, o': Oracle)
    requires Sealable(f, enc, n) && Peers(enc, dec) && slot.Held? && AllSucceed(o) && AllSucceed(o')
    requires |f| == PAYLOAD_OFF + n && NoWrap(f, Delta(n)) && Get16(f, IP_CHECK_AT) != 0xFFFF
    ensures Run(Run(f, Some(enc), slot, o).frame, Some(dec), slot, o').frame == Splice(f, UDP_CHECK_AT, [0, 0])
  {
    hide Run;
    RoundTrip(f, n, enc, dec, slot, o, o');
    RunSeals(f, n, enc, slot, o);
    var e := Run(f, Some(enc), slot, o);
    DecryptOpens(f, n, e.frame, dec, slot, IvOf(o.now), o');
    WholeFrameFromParts(f, Run(e.frame, Some(dec), slot, o').frame, n);
  }

  lemma WholeFrameFromParts(f: bytes, d: bytes, n: nat)
    requires |f| == PAYLOAD_OFF + n && SameUpTo(f, d, |f|) && Get16(d, UDP_CHECK_AT) == 0
    ensures d == Splice(f, UDP_CHECK_AT, [0, 0])
  {
  }
}
