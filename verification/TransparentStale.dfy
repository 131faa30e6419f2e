/** Which nested runs are sure to bring the payload back. Below a layer that made the IP length wrap
    a frame with a long link-layer trailer still carries the tail header of that layer, and the
    next hook decrypts the body once more, under whatever IV the kfunc has left there. */
module TransparentStale {
  import opened Bytes
  import opened Layout
  import opened Kernel
  import opened Hooks
  import opened Stats
  import opened TransparentSpec
  import opened TransparentRoundTrip
  import opened TransparentNesting

  // ----- A cipher and a kernel ----------------------------------------------------------------

  function Flipped(b: bytes): (r: bytes)
    ensures |r| == |b| && forall i :: 0 <= i < |b| ==> r[i] == 0xFF - b[i]
  {
    seq(|b|, i requires 0 <= i < |b| => 0xFF - b[i])
  }

  const ZERO_IV: bytes := Repeat(0, IV_BYTES)

  /** The identity under the IV of zeros, its own inverse under any other. */
  function Flip(iv: bytes, b: bytes): bytes {
    if iv == ZERO_IV then b else Flipped(b)
  }

  function Flipper(): (c: RawCipher)
    ensures IsCipher(c)
    ensures forall d, iv, b :: c.Run(d, iv, b) == Flip(iv, b)
  {
    assert forall b :: Flipped(Flipped(b)) == b;
    RawCipher(ALGO_CBC_AES, Flip, Flip)
  }

  /** All helpers succeed, the clock stands at zero, and the kfunc leaves `iv` in the IV field. */
  function Helpful(iv: byte): (o: Oracle)
    ensures AllSucceed(o)
  {
    Oracle(true, _ => 0, BLOCK_BYTES, 0, true, LengthOracle(true, true, true, true, true, true),
           true, DynptrOracle(true, true, true, true, true), KfuncOracle(true, _ => iv, _ => 0), true,
           EventOracle(false, 0, _ => 0), true, true)
  }

  lemma ClockAtZero()
    ensures IvOf(0) == ZERO_IV
  {
  }

  // ----- The stale layer ----------------------------------------------------------------------

  /** A frame that passes for a sealed one of `b` body bytes, with `v` all over its IV field. */
  ghost predicate Stale(r: bytes, b: u16, v: byte, last: byte, cfg: CryptoConfig) {
    && Ready(r, cfg, b + HEADER_BYTES) && b > 0 && b % BLOCK_BYTES == 0
    && At(r, PAYLOAD_OFF + b, IV_OFFSET) == At(Header(ACTION_ENCRYPT, b, ZERO_IV), 0, IV_OFFSET)
    && At(r, PAYLOAD_OFF + b + IV_OFFSET, IV_BYTES) == Repeat(v, IV_BYTES)
    && r[PAYLOAD_OFF + b - 1] == last
  }

  lemma StalePassesTail(r: bytes, b: u16, v: byte, last: byte, cfg: CryptoConfig, o: Oracle)
    requires Stale(r, b, v, last, cfg) && AllSucceed(o)
    ensures |r| >= PAYLOAD_OFF + b + HEADER_BYTES && CheckTail(r, b + HEADER_BYTES, o) == Go(r)
  {
  }

  /** The last body byte after decryption under a stale IV. */
  function NextLast(v: byte, last: byte): byte {
    if v == 0 then last else 0xFF - last
  }

  lemma StaleBody(r: bytes, b: u16, v: byte, last: byte, cfg: CryptoConfig, c: Kernel.Cipher, o: Oracle)
    requires Stale(r, b, v, last, cfg) && AllSucceed(o) && c == Flipper()
    ensures |r| >= PAYLOAD_OFF + b + HEADER_BYTES
    ensures var s := Crypted(r, b, Decrypt, Held(c), o);
            s.Go? && s.frame[PAYLOAD_OFF + b - 1] == NextLast(v, last)
  {
    hide Crypted, Flipper, Ready;
    assert |r| >= PAYLOAD_OFF + b + HEADER_BYTES by { StalePassesTail(r, b, v, last, cfg, o); }
    CryptedLayout(r, b, Decrypt, Held(c), o);
    var body := At(r, PAYLOAD_OFF, b);
    var out := Flip(Repeat(v, IV_BYTES), body);
    assert body[b - 1] == last;
    assert v != 0 ==> Repeat(v, IV_BYTES)[0] != ZERO_IV[0];
    var t := Crypted(r, b, Decrypt, Held(c), o).frame;
    assert At(t, PAYLOAD_OFF, b) == out;
    assert t[PAYLOAD_OFF + b - 1] == At(t, PAYLOAD_OFF, b)[b - 1];
  }

  /** One more run on a stale frame finds no padding it accepts and leaves the length alone. */
  lemma StaleStep(r: bytes, b: u16, v: byte, last: byte, cfg: CryptoConfig, slot: Slot, iv: byte)
    requires Stale(r, b, v, last, cfg) && cfg.action == ACTION_DECRYPT && slot.Held? && slot.cipher == Flipper()
    requires NextLast(v, last) > BLOCK_BYTES
    ensures var t := Run(r, Some(cfg), slot, Helpful(iv)).frame;
            |t| == |r| && Stale(t, b, iv, NextLast(v, last), cfg)
  {
    var o := Helpful(iv);
    StalePassesTail(r, b, v, last, cfg, o);
    StaleBody(r, b, v, last, cfg, slot.cipher, o);
    assert Admitted(r, Some(cfg)) == Admit(b + HEADER_BYTES);
    var s := Crypted(r, b, Decrypt, slot, o);
    assert Finish(s.frame, b, o) == Halt(s.frame, DoneThenBad);
    assert Run(r, Some(cfg), slot, o).frame == s.frame;
    DecryptKeepsTail(r, b, slot, o);
    HelpfulLeaves(iv);
    SameHeaders(r, s.frame, b + HEADER_BYTES, cfg);
  }

  lemma DecryptKeepsTail(r: bytes, b: nat, slot: Slot, o: Oracle)
    requires PAYLOAD_OFF + b + HEADER_BYTES <= |r| && b % BLOCK_BYTES == 0 && slot.Held? && AllSucceed(o)
    ensures var s := Crypted(r, b, Decrypt, slot, o);
            && s.Go?
            && (forall i :: 0 <= i < PAYLOAD_OFF ==> s.frame[i] == r[i])
            && At(s.frame, PAYLOAD_OFF + b, IV_OFFSET) == At(r, PAYLOAD_OFF + b, IV_OFFSET)
            && At(s.frame, PAYLOAD_OFF + b + IV_OFFSET, IV_BYTES) == LeftIv(o)
  {
    CryptedLayout(r, b, Decrypt, slot, o);
  }

  lemma SameHeaders(r: bytes, t: bytes, n: nat, cfg: CryptoConfig)
    requires Ready(r, cfg, n) && |t| >= PAYLOAD_OFF + n
    requires forall i :: 0 <= i < PAYLOAD_OFF && i != 40 && i != 41 ==> t[i] == r[i]
    ensures Ready(t, cfg, n)
  {
    assert Ihl(t) == 5 && UdpOff(t) == 34 && EthProto(t) == EthProto(r) && Get16(t, 20) == Get16(r, 20);
    assert UdpDest(t) == Get16(t, 36) == Get16(r, 36) == UdpDest(r);
    assert UdpLen(t) == Get16(t, 38) == Get16(r, 38) == UdpLen(r);
  }

  // ----- How a layer gets stale ---------------------------------------------------------------

  lemma FinishStops(f: bytes, n: nat, g: bytes, t: bytes, o: Oracle)
    requires |f| >= PAYLOAD_OFF + n && n >= 1 && |t| == |f| + Delta(n) && |g| >= PAYLOAD_OFF && AllSucceed(o)
    requires At(t, PAYLOAD_OFF, BodyLen(n)) == PaddedPayload(f, n)
    requires HeadersMoved(f, g, Delta(n), true) && Get16(f, UDP_LEN_AT) + Delta(n) <= 0xFFFF && !NoWrap(f, Delta(n))
    requires forall i :: 0 <= i < PAYLOAD_OFF ==> t[i] == g[i]
    ensures Finish(t, BodyLen(n), o) == Halt(Resized(t, |f|, o.fill), DoneThenFail)
  {
    hide Finish, UpdateLengths, PaddedPayload, HeadersMoved, Get16;
    FinishCuts(f, n, t, o);
    LengthsBack(f, g, Resized(t, |f|, o.fill), Delta(n), o.lengths, DoneThenFail);
  }

  /** What a decrypting run gets to see of a sealed frame before it cuts it. */
  lemma SealedBefore(f: bytes, n: nat, g: bytes, cfg: CryptoConfig, c: Kernel.Cipher, iv: bytes)
    requires Ready(f, cfg, n) && Sealed(f, n, g, c, iv)
    ensures |f| >= PAYLOAD_OFF + n && n >= 1 && |g| == |f| + Delta(n) && HeadersMoved(f, g, Delta(n), true)
    ensures Get16(f, UDP_LEN_AT) + Delta(n) <= 0xFFFF
  {
    assert Get16(f, UDP_LEN_AT) == UdpLen(f);
  }

  /** Taking off a layer whose IP length wrapped cuts the packet and does nothing more. */
  lemma WrappedIsCut(f: bytes, n: nat, g: bytes, cfg: CryptoConfig, slot: Slot, iv: bytes, o: Oracle)
    requires Ready(f, cfg, n) && cfg.action == ACTION_DECRYPT && slot.Held? && AllSucceed(o)
    requires Sealed(f, n, g, slot.cipher, iv) && !NoWrap(f, Delta(n))
    ensures var t := Crypted(g, BodyLen(n), Decrypt, slot, o).frame;
            && Run(g, Some(cfg), slot, o).frame == Resized(t, |f|, o.fill)
            && At(t, PAYLOAD_OFF, BodyLen(n)) == PaddedPayload(f, n)
  {
    hide *;
    SealedBefore(f, n, g, cfg, slot.cipher, iv);
    BodyLenFits(f, n, g, slot.cipher, iv);
    SealedIsDecrypted(f, n, g, cfg, slot, iv, o);
    OpenBody(f, n, g, slot, iv, o);
    FinishStops(f, n, g, Crypted(g, BodyLen(n), Decrypt, slot, o).frame, o);
  }

  /** With a trailer as long as the layer, the cut leaves the layer behind, with `iv` in its IV
      field. */
  lemma LayerGetsStale(f: bytes, n: nat, g: bytes, cfg: CryptoConfig, slot: Slot, iv: byte)
    requires Ready(f, cfg, n) && cfg.action == ACTION_DECRYPT && slot.Held?
    requires Sealed(f, n, g, slot.cipher, ZERO_IV) && !NoWrap(f, Delta(n))
    requires |f| >= PAYLOAD_OFF + n + Delta(n)
    ensures Stale(Run(g, Some(cfg), slot, Helpful(iv)).frame, BodyLen(n), iv, PadLen(n), cfg)
  {
    hide *;
    var o, b := Helpful(iv), BodyLen(n);
    BodyLenFits(f, n, g, slot.cipher, ZERO_IV);
    SealedIsAdmitted(f, n, g, slot.cipher, ZERO_IV, cfg, o);
    WrappedIsCut(f, n, g, cfg, slot, ZERO_IV, o);
    DecryptKeepsTail(g, b, slot, o);
    var t := Crypted(g, b, Decrypt, slot, o).frame;
    PadByte(f, n, t);
    HelpfulLeaves(iv);
    CutIsStale(g, t, Resized(t, |f|, o.fill), n, iv, cfg);
  }

  lemma BodyLenFits(f: bytes, n: nat, g: bytes, c: Kernel.Cipher, iv: bytes)
    requires Sealed(f, n, g, c, iv)
    ensures |g| == |f| + Delta(n) && |f| >= PAYLOAD_OFF + n && |g| >= PAYLOAD_OFF + BodyLen(n) + HEADER_BYTES
    ensures n + Delta(n) == BodyLen(n) + HEADER_BYTES <= 0xFFFF && BodyLen(n) > 0 && BodyLen(n) % BLOCK_BYTES == 0
    ensures At(g, PAYLOAD_OFF + BodyLen(n), HEADER_BYTES) == Header(ACTION_ENCRYPT, BodyLen(n), iv)
  {
  }

  lemma HelpfulLeaves(iv: byte)
    ensures LeftIv(Helpful(iv)) == Repeat(iv, IV_BYTES)
  {
  }

  lemma CutIsStale(g: bytes, t: bytes, r: bytes, n: nat, iv: byte, cfg: CryptoConfig)
    requires n + Delta(n) == BodyLen(n) + HEADER_BYTES <= 0xFFFF && BodyLen(n) % BLOCK_BYTES == 0
    requires Ready(g, cfg, n + Delta(n)) && |t| == |g| >= |r| >= PAYLOAD_OFF + n + Delta(n)
    requires At(g, PAYLOAD_OFF + BodyLen(n), HEADER_BYTES) == Header(ACTION_ENCRYPT, BodyLen(n), ZERO_IV)
    requires forall i :: 0 <= i < PAYLOAD_OFF ==> t[i] == g[i]
    requires At(t, PAYLOAD_OFF + BodyLen(n), IV_OFFSET) == At(g, PAYLOAD_OFF + BodyLen(n), IV_OFFSET)
    requires At(t, PAYLOAD_OFF + BodyLen(n) + IV_OFFSET, IV_BYTES) == Repeat(iv, IV_BYTES)
    requires t[PAYLOAD_OFF + BodyLen(n) - 1] == PadLen(n) && r == t[..|r|]
    ensures Stale(r, BodyLen(n), iv, PadLen(n), cfg)
  {
    hide Ready;
    var b := BodyLen(n);
    SameHeaders(g, r, n + Delta(n), cfg);
    AtAt(g, PAYLOAD_OFF + b, HEADER_BYTES, 0, IV_OFFSET);
    assert At(r, PAYLOAD_OFF + b, IV_OFFSET) == At(t, PAYLOAD_OFF + b, IV_OFFSET);
    assert At(r, PAYLOAD_OFF + b + IV_OFFSET, IV_BYTES) == At(t, PAYLOAD_OFF + b + IV_OFFSET, IV_BYTES);
  }

  // ----- The guarantee ------------------------------------------------------------------------

  /** `k` encrypting and `k` decrypting runs under one context, all helpers succeeding. */
  predicate Kernels(slot: Slot, os: seq<Oracle>, os': seq<Oracle>, k: nat) {
    slot.Held? && |os| == |os'| == k && AllRunsSucceed(os) && AllRunsSucceed(os')
  }

  /** The payload and the packet length come back. */
  predicate PayloadBack(f: bytes, n: nat, enc: CryptoConfig, dec: CryptoConfig, slot: Slot,
                        os: seq<Oracle>, os': seq<Oracle>)
    requires |f| >= PAYLOAD_OFF + n
  {
    var d := RunAll(RunAll(f, enc, slot, os), dec, slot, os');
    |d| == |f| && Payload(d, n) == Payload(f, n)
  }

  function HelpfulRuns(k: nat): (os: seq<Oracle>)
    ensures |os| == k && AllRunsSucceed(os) && forall i :: 0 <= i < k ==> os[i] == Helpful(0)
  {
    seq(k, _ => Helpful(0))
  }

  /** The runs that spoil the payload: the one that takes off layer `w` leaves ones in the IV. */
  function SpoilingStack(f: bytes, n: nat, enc: CryptoConfig, dec: CryptoConfig, k: nat, w: nat): (t: Stack)
    requires w < k
    ensures t.slot.Held? && t.slot.cipher == Flipper()
    ensures Kernels(t.slot, t.up, t.down, k)
    ensures t == Stack(f, n, enc, dec, t.slot, HelpfulRuns(k), HelpfulRuns(k)[k - w - 1 := Helpful(1)])
  {
    Stack(f, n, enc, dec, Held(Flipper()), HelpfulRuns(k), HelpfulRuns(k)[k - w - 1 := Helpful(1)])
  }

  /** Layer `w` gets stale when its run leaves ones in the IV. */
  lemma SpoiltLayer(t: Stack, w: nat)
    requires t.Valid() && 0 < w < |t.up| && t.HasRoom(w) && !t.HasRoom(w + 1)
    requires |t.f| >= PAYLOAD_OFF + t.n + 32
    requires t.up[w] == Helpful(0) && |t.down| == |t.up| && t.down[|t.up| - w - 1] == Helpful(1)
    ensures Stale(t.Down(|t.up| - w), BodyLen(t.Len(w)), 1, 8, t.dec)
    ensures |t.Down(|t.up| - w)| == |t.f| + t.Len(w) - t.n
  {
    hide *;
    var i := |t.up| - w - 1;
    var g, d := t.Up(w), t.Down(i);
    PeelWrapped(t, w);
    UpSealable(t, w);
    DownStep(t, i);
    SealedAt(t, w, d);
    WrapsAt(t, w);
    LayerGetsStale(g, t.Len(w), d, t.dec, t.slot, 1);
    StaleLengths(t, w, d, t.Down(i + 1));
  }

  /** The frame under layer `w`, and what the run that takes it off gets to see. */
  lemma SealedAt(t: Stack, w: nat, d: bytes)
    requires t.Valid() && 0 < w < |t.up| && t.up[w] == Helpful(0) && t.HasRoom(w) && !t.HasRoom(w + 1)
    requires |t.f| >= PAYLOAD_OFF + t.n + 32
    requires SameUpTo(t.Up(w + 1), d, PAYLOAD_OFF + t.Len(w + 1))
    ensures Ready(t.Up(w), t.dec, t.Len(w)) && t.dec.action == ACTION_DECRYPT && t.slot.Held?
    ensures Sealed(t.Up(w), t.Len(w), d, t.slot.cipher, ZERO_IV)
    ensures |t.Up(w)| >= PAYLOAD_OFF + t.Len(w) + Delta(t.Len(w)) && PadLen(t.Len(w)) == 8
    ensures !NoWrap(t.Up(w), Delta(t.Len(w)))
  {
    hide *;
    UpSealable(t, w);
    UpStep(t, w);
    SealedBy(t.Up(w), t.Len(w), t.enc, t.dec, t.slot, t.up[w], d);
    WrapsAt(t, w);
    ThirtyTwoMore(t, w);
  }

  lemma SealedBy(g: bytes, m: nat, enc: CryptoConfig, dec: CryptoConfig, slot: Slot, o: Oracle, d: bytes)
    requires Sealable(g, enc, m) && Peers(enc, dec) && slot.Held? && o == Helpful(0)
    requires SameUpTo(Run(g, Some(enc), slot, o).frame, d, PAYLOAD_OFF + m + Delta(m))
    ensures Ready(g, dec, m) && dec.action == ACTION_DECRYPT && Sealed(g, m, d, slot.cipher, ZERO_IV)
  {
    ClockAtZero();
    PeerIsReady(g, m, enc, dec);
    hide Run, Ready, Sealed, SameUpTo, IvOf;
    RunSeals(g, m, enc, slot, o);
    SealedStable(g, m, Run(g, Some(enc), slot, o).frame, d, slot.cipher, ZERO_IV);
  }

  lemma ThirtyTwoMore(t: Stack, w: nat)
    requires t.Valid() && 0 < w < |t.up| && |t.f| >= PAYLOAD_OFF + t.n + 32
    ensures PadLen(t.Len(w)) == 8 && |t.Up(w)| >= PAYLOAD_OFF + t.Len(w) + Delta(t.Len(w))
  {
    hide *;
    EightMore(t, w);
    UpReady(t, w);
  }

  lemma EightMore(t: Stack, w: nat)
    requires w > 0
    ensures PadLen(t.Len(w)) == 8 && Delta(t.Len(w)) == 32
  {
    LayerLenClosedForm(t.n, w);
    var q := t.n / 16 + 2 * w;
    assert t.Len(w) == 16 * q + 8;
    PadOfEight(q);
  }

  lemma PadOfEight(q: nat)
    ensures PadLen(16 * q + 8) == 8
  {
  }

  lemma StaleLengths(t: Stack, w: nat, d: bytes, r: bytes)
    requires t.Valid() && 0 < w < |t.up| && Peeled(t, w, d, r)
    ensures |r| == |t.f| + t.Len(w) - t.n
  {
    hide Run, Ready, Payload;
    UpReady(t, w);
  }

  /** From then on no run shortens the packet. */
  lemma {:induction false} StaysStale(t: Stack, b: u16, i: nat, j: nat)
    requires t.slot.Held? && t.slot.cipher == Flipper() && t.dec.action == ACTION_DECRYPT && i < j <= |t.down|
    requires Stale(t.Down(i), b, 1, 8, t.dec) && forall k :: i <= k < j ==> t.down[k] == Helpful(0)
    ensures Stale(t.Down(j), b, 0, 0xFF - 8, t.dec) && |t.Down(j)| == |t.Down(i)|
    decreases j
  {
    hide Stale, Stack.Down, Run, Flipper, Helpful;
    if j == i + 1 {
      StaleStep(t.Down(i), b, 1, 8, t.dec, t.slot, 0);
    } else {
      StaysStale(t, b, i, j - 1);
      StaleStep(t.Down(j - 1), b, 0, 0xFF - 8, t.dec, t.slot, 0);
    }
    DownStep(t, j - 1);
  }

  lemma SpoiltLong(t: Stack, w: nat)
    requires t.Valid() && 0 < w < |t.up| && t.HasRoom(w) && !t.HasRoom(w + 1)
    requires |t.f| >= PAYLOAD_OFF + t.n + 32 && t.slot.cipher == Flipper()
    requires t.up[w] == Helpful(0) && |t.down| == |t.up| && t.down[|t.up| - w - 1] == Helpful(1)
    requires forall i :: |t.up| - w <= i < |t.up| ==> t.down[i] == Helpful(0)
    ensures |t.Down(|t.up|)| == |t.f| + t.Len(w) - t.n
  {
    hide *;
    SpoiltLayer(t, w);
    BodyFits(t, w);
    Decrypting(t);
    StaysStale(t, BodyLen(t.Len(w)), |t.up| - w, |t.up|);
  }

  lemma Decrypting(t: Stack)
    requires t.Valid()
    ensures t.dec.action == ACTION_DECRYPT && t.slot.Held?
  {
  }

  lemma BodyFits(t: Stack, w: nat)
    requires t.Valid() && w < |t.up|
    ensures BodyLen(t.Len(w)) <= 0xFFFF
  {
  }

  lemma SpoilingRuns(t: Stack, w: nat)
    requires w < |t.up| && w > 0 && t == SpoilingStack(t.f, t.n, t.enc, t.dec, |t.up|, w)
    ensures t.slot.Held? && t.slot.cipher == Flipper() && |t.down| == |t.up|
    ensures t.up[w] == Helpful(0) && t.down[|t.up| - w - 1] == Helpful(1)
    ensures forall i :: |t.up| - w <= i < |t.up| ==> t.down[i] == Helpful(0)
    ensures t.Len(w) > t.n
  {
    hide Helpful, Flipper, Delta;
    LayerLenGrows(t.n, 0, w);
  }

  /** For every frame whose IP length wraps on a layer above the first there is a cipher and there
      are kernel runs that do not bring the payload back. */
  lemma Spoilt(t: Stack, w: nat)
    requires t.Valid() && 0 < w < |t.up| && t.HasRoom(w) && !t.HasRoom(w + 1)
    requires t == SpoilingStack(t.f, t.n, t.enc, t.dec, |t.up|, w)
    ensures |t.down| == |t.up| && |t.Down(|t.up|)| > |t.f|
  {
    hide *;
    SpoilingRuns(t, w);
    if |t.f| < PAYLOAD_OFF + t.n + 32 {
      CutShort(t, w);
    } else {
      SpoiltLong(t, w);
    }
  }

  /** Whatever the cipher and the kernel do, the payload comes back from `k` layers: exactly when
      the IP total length has room for all of them or wraps on the first. */
  lemma PayloadGuaranteed(f: bytes, n: nat, enc: CryptoConfig, dec: CryptoConfig, k: nat)
    requires Sealable(f, enc, n) && Peers(enc, dec) && k >= 1 && LayersFit(n, k)
    ensures (forall slot, os, os' :: Kernels(slot, os, os', k) ==> PayloadBack(f, n, enc, dec, slot, os, os'))
            <==> Room(f, n, k) || !Room(f, n, 1)
  {
    if Room(f, n, k) || !Room(f, n, 1) {
      forall slot, os, os' | Kernels(slot, os, os', k)
        ensures PayloadBack(f, n, enc, dec, slot, os, os')
      {
        hide Run, Sealable, Room, AllRunsSucceed;
        NestedRoundTrip(f, n, enc, dec, slot, os, os');
      }
    } else {
      var w := WrappingLayer(Stack(f, n, enc, dec, NoSlot, [], []), k);
      var t := SpoilingStack(f, n, enc, dec, k, w);
      assert t.Valid() && w > 0;
      hide Run, Sealable, AllRunsSucceed, HelpfulRuns;
      Spoilt(t, w);
      WholeStack(t);
      assert Kernels(t.slot, t.up, t.down, k) && !PayloadBack(f, n, enc, dec, t.slot, t.up, t.down);
    }
  }
}
