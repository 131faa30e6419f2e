/** Runs of encrypting hooks followed by as many decrypting hooks behave like a stack. */
module TransparentNesting {
  import opened Bytes
  import opened Checksum
  import opened Layout
  import opened Kernel
  import opened TransparentSpec
  import opened TransparentRoundTrip
  import opened TransparentWraps

  /** The frame after one run per oracle, first oracle first. */
  function RunAll(f: bytes, cfg: CryptoConfig, slot: Slot, os: seq<Oracle>): bytes {
    if os == [] then f
    else Run(RunAll(f, cfg, slot, os[..|os| - 1]), Some(cfg), slot, os[|os| - 1]).frame
  }

  predicate AllRunsSucceed(os: seq<Oracle>) {
    forall i :: 0 <= i < |os| ==> AllSucceed(os[i])
  }

  /** The UDP payload length after `k` layers of encryption. */
  function LayerLen(n: nat, k: nat): nat {
    if k == 0 then n else LayerLen(n, k - 1) + Delta(LayerLen(n, k - 1))
  }

  /** After the first layer every further one adds 32 bytes. */
  lemma {:induction false} LayerLenClosedForm(n: nat, k: nat)
    requires k >= 1
    ensures LayerLen(n, k) == 16 * (n / 16 + 1) + 24 + 32 * (k - 1)
  {
    if k > 1 {
      LayerLenClosedForm(n, k - 1);
    }
  }

  /** All layers stay within what the hook encrypts. */
  predicate LayersFit(n: nat, k: nat) {
    forall j: nat :: j < k ==> LayerLen(n, j) <= MAX_TRANSPARENT_PAYLOAD
  }

  /** The IP total length has room for `k` layers. */
  predicate Room(f: bytes, n: nat, k: nat)
    requires |f| >= PAYLOAD_OFF
  {
    Get16(f, IP_LEN_AT) + LayerLen(n, k) - n <= 0xFFFF
  }

  lemma {:induction false} LayerLenGrows(n: nat, j: nat, k: nat)
    requires j <= k
    ensures LayerLen(n, j) <= LayerLen(n, k)
    ensures j < k ==> LayerLen(n, j) < LayerLen(n, k)
  {
    if j < k {
      LayerLenGrows(n, j, k - 1);
    }
  }

  lemma CsumStaysBelowFull(hc: u16, m: u16, m': u16)
    requires m != 0xFFFF || m' != 0
    ensures CsumReplace(hc, m, m') != 0xFFFF
  {
  }

  /** `g` is `f` with its payload of `n` bytes wrapped up to `m` bytes, ready for one more hook. */
  ghost predicate Layered(f: bytes, n: nat, g: bytes, m: nat, cfg: CryptoConfig)
    requires |f| >= PAYLOAD_OFF
  {
    && Ready(g, cfg, m)
    && |g| == |f| + m - n
    && Get16(g, IP_LEN_AT) == (Get16(f, IP_LEN_AT) + m - n) % 0x1_0000
    && (m == n ==> Get16(g, IP_CHECK_AT) == Get16(f, IP_CHECK_AT))
    && (m > n ==> Get16(g, IP_CHECK_AT) != 0xFFFF)
  }

  lemma MovedTwice(x: int, delta: nat)
    ensures (x % 0x1_0000 + delta) % 0x1_0000 == (x + delta) % 0x1_0000
  {
  }

  /** One more layer on a layered frame. */
  lemma LayerOnTop(f: bytes, n: nat, g: bytes, m: nat, cfg: CryptoConfig, e: bytes)
    requires |f| >= PAYLOAD_OFF && n <= m <= MAX_TRANSPARENT_PAYLOAD && Layered(f, n, g, m, cfg)
    requires |e| == |g| + Delta(m) && HeadersMoved(g, e, Delta(m), true)
    ensures Layered(f, n, e, m + Delta(m), cfg)
  {
    hide Ready, CsumReplace, Get16, PadLen;
    MovedIsReady(g, m, e, Delta(m), cfg);
    MovedTwice(Get16(f, IP_LEN_AT) + m - n, Delta(m));
    CsumStaysBelowFull(Get16(g, IP_CHECK_AT), Get16(g, IP_LEN_AT), Get16(e, IP_LEN_AT));
  }

  /** One more encrypting run on a layered frame. */
  lemma RunOnTop(f: bytes, n: nat, g: bytes, m: nat, cfg: CryptoConfig, slot: Slot, o: Oracle)
    requires |f| >= PAYLOAD_OFF && 1 <= n <= m <= MAX_TRANSPARENT_PAYLOAD && Layered(f, n, g, m, cfg)
    requires cfg.action == ACTION_ENCRYPT && slot.Held? && AllSucceed(o)
    ensures Layered(f, n, Run(g, Some(cfg), slot, o).frame, m + Delta(m), cfg)
  {
    hide Run;
    RunSeals(g, m, cfg, slot, o);
    LayerOnTop(f, n, g, m, cfg, Run(g, Some(cfg), slot, o).frame);
  }

  lemma RunAllStep(f: bytes, cfg: CryptoConfig, slot: Slot, os: seq<Oracle>, k: nat)
    requires k < |os|
    ensures RunAll(f, cfg, slot, os[..k + 1])
         == Run(RunAll(f, cfg, slot, os[..k]), Some(cfg), slot, os[k]).frame
  {
    hide Run;
    assert os[..k + 1][..k] == os[..k];
  }

  /** Every layer is admitted: the payload length after `k` layers is `LayerLen`, whatever the IP
      length does. */
  lemma {:induction false} EncryptedLayers(f: bytes, n: nat, cfg: CryptoConfig, slot: Slot, os: seq<Oracle>, k: nat)
    requires Sealable(f, cfg, n) && cfg.action == ACTION_ENCRYPT && slot.Held? && AllRunsSucceed(os)
    requires k <= |os| && LayersFit(n, |os|)
    ensures Layered(f, n, RunAll(f, cfg, slot, os[..k]), LayerLen(n, k), cfg)
  {
    hide *;
    NoLayers(f, n, cfg, slot, os);
    if k > 0 {
      var g, m := RunAll(f, cfg, slot, os[..k - 1]), LayerLen(n, k - 1);
      EncryptedLayers(f, n, cfg, slot, os, k - 1);
      NextLayer(n, os, k - 1);
      RunOnTop(f, n, g, m, cfg, slot, os[k - 1]);
      RunAllStep(f, cfg, slot, os, k - 1);
    }
  }

  lemma NextLayer(n: nat, os: seq<Oracle>, j: nat)
    requires AllRunsSucceed(os) && j < |os| && LayersFit(n, |os|)
    ensures AllSucceed(os[j]) && n <= LayerLen(n, j) <= MAX_TRANSPARENT_PAYLOAD
    ensures LayerLen(n, j + 1) == LayerLen(n, j) + Delta(LayerLen(n, j))
  {
    hide AllSucceed, Delta;
    LayerLenGrows(n, 0, j);
  }

  lemma NoLayers(f: bytes, n: nat, cfg: CryptoConfig, slot: Slot, os: seq<Oracle>)
    requires Sealable(f, cfg, n)
    ensures |f| >= PAYLOAD_OFF && n >= 1
    ensures Layered(f, n, RunAll(f, cfg, slot, os[..0]), LayerLen(n, 0), cfg)
  {
    hide Run;
    assert os[..0] == [];
  }

  /** Only the layer on which the sum passes 65535 wraps. */
  lemma WrapsOnce(f: bytes, n: nat, g: bytes, j: nat, k: nat, cfg: CryptoConfig)
    requires |f| >= PAYLOAD_OFF && j < k && LayersFit(n, k) && Layered(f, n, g, LayerLen(n, j), cfg)
    ensures NoWrap(g, Delta(LayerLen(n, j))) <==> Room(f, n, j + 1) || !Room(f, n, j)
  {
    hide Ready, Get16;
    LayerLenGrows(n, 0, j);
    SumWraps(Get16(f, IP_LEN_AT), LayerLen(n, j) - n, Delta(LayerLen(n, j)));
  }

  lemma SumWraps(x: u16, grown: nat, delta: nat)
    requires grown <= MAX_TRANSPARENT_PAYLOAD && delta <= 40
    ensures (x + grown) % 0x1_0000 + delta <= 0xFFFF <==> x + grown + delta <= 0xFFFF || x + grown > 0xFFFF
    ensures x + grown + delta > 0xFFFF ==> (x + grown + delta) % 0x1_0000 < x
  {
  }

  // ----- And back -----------------------------------------------------------------------------

  /** One decrypting run takes the top layer off, also when the sealed frame comes with another
      UDP checksum or another trailer. */
  lemma RunOffTop(g: bytes, m: nat, e: bytes, d: bytes, enc: CryptoConfig, dec: CryptoConfig, slot: Slot,
                  o: Oracle, o': Oracle)
    requires Sealable(g, enc, m) && Peers(enc, dec) && slot.Held? && AllSucceed(o) && AllSucceed(o')
    requires e == Run(g, Some(enc), slot, o).frame && SameUpTo(e, d, PAYLOAD_OFF + m + Delta(m))
    ensures var r := Run(d, Some(dec), slot, o').frame;
            && |r| == |g| && Payload(r, m) == Payload(g, m)
            && (SameUpTo(g, r, PAYLOAD_OFF + m) <==> NoWrap(g, Delta(m)) && Get16(g, IP_CHECK_AT) != 0xFFFF)
            && (!NoWrap(g, Delta(m)) ==> |d| >= PAYLOAD_OFF && forall i :: 0 <= i < PAYLOAD_OFF ==> r[i] == d[i])
  {
    PeerIsReady(g, m, enc, dec);
    hide Run, Ready, PaddedPayload, HeadersMoved, Get16;
    RunSeals(g, m, enc, slot, o);
    SealedStable(g, m, e, d, slot.cipher, IvOf(o.now));
    DecryptOpens(g, m, d, dec, slot, IvOf(o.now), o');
    OpenedIff(g, m, d, Run(d, Some(dec), slot, o'));
  }

  lemma PeerIsReady(f: bytes, n: nat, enc: CryptoConfig, dec: CryptoConfig)
    requires Ready(f, enc, n) && Peers(enc, dec)
    ensures Ready(f, dec, n)
  {
  }

  /** A stack of runs: the datagram `f` of `n` payload bytes, one oracle per encrypting run, one
      per decrypting run. */
  datatype Stack = Stack(
    f: bytes, n: nat, enc: CryptoConfig, dec: CryptoConfig, slot: Slot, up: seq<Oracle>, down: seq<Oracle>)
  {
    /** As many runs in either direction, all successful, all within what the hook encrypts. */
    predicate Valid() {
      && Sealable(f, enc, n) && Peers(enc, dec) && slot.Held?
      && |up| == |down| && AllRunsSucceed(up) && AllRunsSucceed(down) && LayersFit(n, |up|)
    }

    /** The frame after `j` encrypting runs. */
    function Up(j: nat): bytes
      requires j <= |up|
    {
      RunAll(f, enc, slot, up[..j])
    }

    /** The frame after all encrypting and `i` decrypting runs. */
    function Down(i: nat): bytes
      requires i <= |down|
    {
      RunAll(Up(|up|), dec, slot, down[..i])
    }

    /** The payload length after `j` encrypting runs. */
    function Len(j: nat): nat {
      LayerLen(n, j)
    }

    /** The IP total length has room for `j` layers. */
    predicate HasRoom(j: nat) {
      |f| >= PAYLOAD_OFF && Room(f, n, j)
    }

    /** None of the layers above `j` made the IP length wrap. */
    predicate NoWrapAbove(j: nat) {
      HasRoom(|up|) || !HasRoom(j)
    }

    /** Only the innermost datagram can have the checksum field that does not come back. */
    predicate Peelable(j: nat) {
      j > 0 || (|f| >= PAYLOAD_OFF && Get16(f, IP_CHECK_AT) != 0xFFFF)
    }
  }

  lemma UpLayered(t: Stack, j: nat)
    requires t.Valid() && j <= |t.up|
    ensures |t.f| >= PAYLOAD_OFF && t.n <= t.Len(j) && Layered(t.f, t.n, t.Up(j), t.Len(j), t.enc)
  {
    hide Run, Layered;
    EncryptedLayers(t.f, t.n, t.enc, t.slot, t.up, j);
    LayerLenGrows(t.n, 0, j);
  }

  lemma UpReady(t: Stack, j: nat)
    requires t.Valid() && j <= |t.up|
    ensures Ready(t.Up(j), t.enc, t.Len(j)) && |t.Up(j)| == |t.f| + t.Len(j) - t.n
  {
    hide Run, Ready;
    UpLayered(t, j);
  }

  lemma DownStep(t: Stack, i: nat)
    requires i < |t.down|
    ensures t.Down(i + 1) == Run(t.Down(i), Some(t.dec), t.slot, t.down[i]).frame
  {
    hide Run;
    RunAllStep(t.Up(|t.up|), t.dec, t.slot, t.down, i);
  }

  /** What taking off layer `j` makes of a frame `d` that is, up to its end, the one with the layer
      on. */
  ghost predicate Peeled(t: Stack, j: nat, d: bytes, r: bytes)
    requires t.Valid() && j < |t.up|
  {
    var g := t.Up(j);
    && |r| == |g| && |g| >= PAYLOAD_OFF + t.Len(j) && Payload(r, t.Len(j)) == Payload(g, t.Len(j))
    && (SameUpTo(g, r, PAYLOAD_OFF + t.Len(j)) <==> (t.HasRoom(j + 1) || !t.HasRoom(j)) && t.Peelable(j))
    && (t.HasRoom(j) && !t.HasRoom(j + 1) ==>
          |d| >= PAYLOAD_OFF && forall i :: 0 <= i < PAYLOAD_OFF ==> r[i] == d[i])
  }

  /** Taking off one layer, at the level of whole runs. */
  lemma PeelLayer(t: Stack, j: nat, d: bytes, o': Oracle)
    requires t.Valid() && j < |t.up| && AllSucceed(o')
    requires SameUpTo(t.Up(j + 1), d, PAYLOAD_OFF + t.Len(j + 1))
    ensures Peeled(t, j, d, Run(d, Some(t.dec), t.slot, o').frame)
  {
    hide *;
    UpSealable(t, j);
    UpStep(t, j);
    RunOffTop(t.Up(j), t.Len(j), t.Up(j + 1), d, t.enc, t.dec, t.slot, t.up[j], o');
    PeeledFrom(t, j, d, Run(d, Some(t.dec), t.slot, o').frame);
  }

  lemma PeeledFrom(t: Stack, j: nat, d: bytes, r: bytes)
    requires t.Valid() && j < |t.up| && |t.Up(j)| >= PAYLOAD_OFF + t.Len(j)
    requires var g, m := t.Up(j), t.Len(j);
             && |r| == |g| && Payload(r, m) == Payload(g, m)
             && (SameUpTo(g, r, PAYLOAD_OFF + m) <==> NoWrap(g, Delta(m)) && Get16(g, IP_CHECK_AT) != 0xFFFF)
             && (!NoWrap(g, Delta(m)) ==> |d| >= PAYLOAD_OFF && forall i :: 0 <= i < PAYLOAD_OFF ==> r[i] == d[i])
    ensures Peeled(t, j, d, r)
  {
    WrapsAt(t, j);
    ChecksumAbove(t, j);
    hide Stack.Valid, Stack.Up, Stack.HasRoom, Stack.Len, Stack.Peelable, NoWrap, Payload, SameUpTo, Get16, Delta;
  }

  lemma UpStep(t: Stack, j: nat)
    requires t.Valid() && j < |t.up|
    ensures t.Up(j + 1) == Run(t.Up(j), Some(t.enc), t.slot, t.up[j]).frame && AllSucceed(t.up[j])
    ensures t.Len(j + 1) == t.Len(j) + Delta(t.Len(j))
  {
    hide Run, Delta, AllSucceed;
    RunAllStep(t.f, t.enc, t.slot, t.up, j);
  }

  lemma UpSealable(t: Stack, j: nat)
    requires t.Valid() && j < |t.up|
    ensures Sealable(t.Up(j), t.enc, t.Len(j)) && Peers(t.enc, t.dec) && t.slot.Held?
    ensures |t.Up(j)| >= PAYLOAD_OFF + t.Len(j)
  {
    hide Run;
    UpReady(t, j);
    LayerLenGrows(t.n, 0, j);
  }

  lemma WrapsAt(t: Stack, j: nat)
    requires t.Valid() && j < |t.up|
    ensures |t.Up(j)| >= PAYLOAD_OFF
    ensures NoWrap(t.Up(j), Delta(t.Len(j))) <==> t.HasRoom(j + 1) || !t.HasRoom(j)
  {
    hide Run, Ready, Get16;
    UpLayered(t, j);
    WrapsOnce(t.f, t.n, t.Up(j), j, |t.up|, t.enc);
    assert |t.Up(j)| >= PAYLOAD_OFF by { UpReady(t, j); }
  }

  lemma ChecksumAbove(t: Stack, j: nat)
    requires t.Valid() && j <= |t.up|
    ensures |t.Up(j)| >= PAYLOAD_OFF
    ensures t.Peelable(j) <==> Get16(t.Up(j), IP_CHECK_AT) != 0xFFFF
  {
    hide Run, Ready, Get16;
    UpLayered(t, j);
    assert t.up[..0] == [];
    LayerLenGrows(t.n, 0, j);
    assert |t.Up(j)| >= PAYLOAD_OFF by { UpReady(t, j); }
  }

  lemma NoWrapAboveNext(t: Stack, j: nat)
    requires j < |t.up| && t.NoWrapAbove(j)
    ensures t.NoWrapAbove(j + 1) && (t.HasRoom(j + 1) || !t.HasRoom(j)) && t.Peelable(j + 1)
  {
    LayerLenGrows(t.n, j, j + 1);
    LayerLenGrows(t.n, j + 1, |t.up|);
  }

  lemma UnwindStart(t: Stack)
    requires t.Valid()
    ensures SameUpTo(t.Up(|t.up|), t.Down(0), PAYLOAD_OFF + t.Len(|t.up|))
  {
    hide Run;
    UpReady(t, |t.up|);
    assert t.down[..0] == [];
  }

  /** Invariant of the unwinding: after `i` decrypting runs the frame is, up to the end of its UDP
      payload, the one that all but `i` of the encrypting runs had made, if none of the layers taken
      off had wrapped. */
  lemma {:induction false} Unwind(t: Stack, i: nat)
    requires t.Valid() && i <= |t.up| && t.NoWrapAbove(|t.up| - i) && t.Peelable(|t.up| - i)
    ensures SameUpTo(t.Up(|t.up| - i), t.Down(i), PAYLOAD_OFF + t.Len(|t.up| - i))
    decreases i
  {
    hide *;
    ValidStack(t);
    if i == 0 {
      UnwindStart(t);
    } else {
      var j := |t.up| - i;
      NoWrapAboveNext(t, j);
      Unwind(t, i - 1);
      PeelLayer(t, j, t.Down(i - 1), t.down[i - 1]);
      DownStep(t, i - 1);
      PeeledIsSame(t, j, t.Down(i - 1), t.Down(i));
    }
  }

  lemma PeeledIsSame(t: Stack, j: nat, d: bytes, r: bytes)
    requires t.Valid() && j < |t.up| && Peeled(t, j, d, r)
    requires (t.HasRoom(j + 1) || !t.HasRoom(j)) && t.Peelable(j)
    ensures SameUpTo(t.Up(j), r, PAYLOAD_OFF + t.Len(j))
  {
    hide Stack.Valid, Stack.Up, Stack.Len, Stack.HasRoom, Stack.Peelable, SameUpTo, Payload;
  }

  // ----- Below a layer that wrapped -----------------------------------------------------------

  /** The layer on which the IP length wraps. */
  function WrappingLayer(t: Stack, k: nat): (w: nat)
    requires |t.f| >= PAYLOAD_OFF && !t.HasRoom(k)
    ensures w < k && t.HasRoom(w) && !t.HasRoom(w + 1)
  {
    assert LayerLen(t.n, 0) == t.n;
    if t.HasRoom(k - 1) then k - 1 else WrappingLayer(t, k - 1)
  }

  /** No decrypting run raises the IP length above what the last encrypting run left. */
  lemma {:induction false} RunsNeverRaise(t: Stack, i: nat)
    requires i <= |t.down| && t.dec.action == ACTION_DECRYPT && |t.Up(|t.up|)| >= PAYLOAD_OFF
    ensures |t.Down(i)| >= PAYLOAD_OFF
    ensures Get16(t.Down(i), IP_LEN_AT) <= Get16(t.Up(|t.up|), IP_LEN_AT)
  {
    hide Run, Get16, Stack.Up;
    if i == 0 {
      assert t.down[..0] == [];
    } else {
      hide Stack.Down;
      RunsNeverRaise(t, i - 1);
      DecryptNeverRaises(t.Down(i - 1), t.dec, t.slot, t.down[i - 1]);
      DownStep(t, i - 1);
    }
  }

  lemma LengthWrapped(f: bytes, n: nat, e: bytes, k: nat, cfg: CryptoConfig)
    requires |f| >= PAYLOAD_OFF && Layered(f, n, e, LayerLen(n, k), cfg) && k > 0 && LayersFit(n, k) && !Room(f, n, k)
    ensures Get16(e, IP_LEN_AT) < Get16(f, IP_LEN_AT)
  {
    hide Ready, Get16;
    LayerLenGrows(n, 0, k - 1);
    SumWraps(Get16(f, IP_LEN_AT), LayerLen(n, k - 1) - n, Delta(LayerLen(n, k - 1)));
  }

  /** Once a layer has wrapped, the IP length never comes back. */
  lemma WrappedIsNotSame(t: Stack)
    requires t.Valid() && |t.up| > 0 && !t.HasRoom(|t.up|)
    ensures !SameUpTo(t.f, t.Down(|t.up|), PAYLOAD_OFF + t.n)
  {
    hide Run, Ready, Layered;
    var k := |t.up|;
    UpLayered(t, k);
    LengthWrapped(t.f, t.n, t.Up(k), k, t.enc);
    assert |t.Up(k)| >= PAYLOAD_OFF by { UpReady(t, k); }
    RunsNeverRaise(t, k);
    var d := t.Down(k);
    assert d[16] != t.f[16] || d[17] != t.f[17];
  }

  /** `r` has the headers of `g` and less than its payload of `m` bytes. */
  ghost predicate Refused(g: bytes, m: nat, r: bytes) {
    && |g| >= PAYLOAD_OFF && PAYLOAD_OFF <= |r| < PAYLOAD_OFF + m
    && forall i :: 0 <= i < PAYLOAD_OFF && i != 40 && i != 41 ==> r[i] == g[i]
  }

  lemma UdpLengthOf(g: bytes, m: nat, cfg: CryptoConfig, r: bytes)
    requires Ready(g, cfg, m) && Refused(g, m, r)
    ensures Get16(r, UDP_LEN_AT) == UDP_BYTES + m
  {
    assert UdpLen(g) == Get16(g, UDP_LEN_AT);
  }

  lemma RefusedStays(t: Stack, g: bytes, m: nat, r: bytes, o: Oracle)
    requires Ready(g, t.enc, m) && Peers(t.enc, t.dec) && Refused(g, m, r)
    ensures Run(r, Some(t.dec), t.slot, o).frame == r
  {
    hide Run, Ready;
    PeerIsReady(g, m, t.enc, t.dec);
    OverlongIsRefused(g, r, m, t.dec, t.slot, o);
  }

  lemma {:induction false} StaysRefused(t: Stack, g: bytes, m: nat, i: nat, j: nat)
    requires Ready(g, t.enc, m) && Peers(t.enc, t.dec) && i <= j <= |t.down| && Refused(g, m, t.Down(i))
    ensures t.Down(j) == t.Down(i)
    decreases j
  {
    hide *;
    if i < j {
      StaysRefused(t, g, m, i, j - 1);
      RefusedStays(t, g, m, t.Down(j - 1), t.down[j - 1]);
      DownStep(t, j - 1);
    }
  }

  lemma LowAbove(t: Stack, w: nat)
    requires !t.HasRoom(w + 1)
    ensures t.NoWrapAbove(w + 1) && t.Peelable(w + 1)
  {
  }

  lemma ValidStack(t: Stack)
    requires t.Valid()
    ensures |t.up| == |t.down| && Peers(t.enc, t.dec) && |t.f| >= PAYLOAD_OFF + t.n
    ensures forall i :: 0 <= i < |t.down| ==> AllSucceed(t.down[i])
  {
  }

  /** Taking off layer `w`, which made the IP length wrap. */
  lemma PeelWrapped(t: Stack, w: nat)
    requires t.Valid() && 0 < w < |t.up| && t.HasRoom(w) && !t.HasRoom(w + 1)
    ensures |t.down| == |t.up|
    ensures var d, r := t.Down(|t.up| - w - 1), t.Down(|t.up| - w);
            SameUpTo(t.Up(w + 1), d, PAYLOAD_OFF + t.Len(w + 1)) && Peeled(t, w, d, r)
  {
    hide *;
    var i := |t.up| - w - 1;
    ValidStack(t);
    LowAbove(t, w);
    Unwind(t, i);
    PeelLayer(t, w, t.Down(i), t.down[i]);
    DownStep(t, i);
  }

  lemma CutIsShort(t: Stack, w: nat, d: bytes, r: bytes)
    requires t.Valid() && 0 < w < |t.up| && t.HasRoom(w) && !t.HasRoom(w + 1)
    requires |t.f| < PAYLOAD_OFF + t.n + 32
    requires SameUpTo(t.Up(w + 1), d, PAYLOAD_OFF + t.Len(w + 1)) && Peeled(t, w, d, r)
    ensures |r| == |t.f| + t.Len(w) - t.n && Refused(t.Up(w + 1), t.Len(w + 1), r)
  {
    LayerLenClosedForm(t.n, w);
    LayerLenClosedForm(t.n, w + 1);
    UpReady(t, w);
    hide Run, Ready, Stack.Up, Stack.HasRoom, Stack.Valid, Payload;
  }

  /** The frame cut back from the layer that wrapped is shorter than its UDP length says, and so it
      stays. */
  lemma CutShort(t: Stack, w: nat)
    requires t.Valid() && 0 < w < |t.up| && t.HasRoom(w) && !t.HasRoom(w + 1)
    requires |t.f| < PAYLOAD_OFF + t.n + 32
    ensures |t.down| == |t.up|
    ensures var d := t.Down(|t.up|);
            |d| == |t.f| + t.Len(w) - t.n && Get16(d, UDP_LEN_AT) == UDP_BYTES + t.Len(w + 1)
  {
    hide *;
    var k := |t.up|;
    ValidStack(t);
    PeelWrapped(t, w);
    CutIsShort(t, w, t.Down(k - w - 1), t.Down(k - w));
    UpReady(t, w + 1);
    StaysRefused(t, t.Up(w + 1), t.Len(w + 1), k - w, k);
    UdpLengthOf(t.Up(w + 1), t.Len(w + 1), t.enc, t.Down(k));
  }

  /** Without room in a layer above the first, the packet never gets shorter than that layer. */
  lemma StaysTooLong(t: Stack)
    requires t.Valid() && |t.f| < PAYLOAD_OFF + t.n + 32 && t.HasRoom(1) && !t.HasRoom(|t.up|)
    ensures |t.down| == |t.up|
    ensures var w, d := WrappingLayer(t, |t.up|), t.Down(|t.up|);
            && w > 0 && |d| == |t.f| + t.Len(w) - t.n > |t.f|
            && Get16(d, UDP_LEN_AT) == UDP_BYTES + t.Len(w + 1)
  {
    hide Stack.Valid, Stack.Up, Stack.Down, Run;
    ValidStack(t);
    var w := WrappingLayer(t, |t.up|);
    LayerLenGrows(t.n, 0, w);
    assert w > 0;
    CutShort(t, w);
  }

  // ----- The stack law ------------------------------------------------------------------------

  lemma Bottom(t: Stack)
    requires t.Valid()
    ensures t.Up(0) == t.f && t.Len(0) == t.n && t.HasRoom(0)
    ensures t.Peelable(0) <==> |t.f| >= PAYLOAD_OFF && Get16(t.f, IP_CHECK_AT) != 0xFFFF
    ensures t.HasRoom(|t.up|) ==> |t.up| > 0 ==> t.HasRoom(1)
    ensures t.Peelable(1)
  {
    assert t.up[..0] == [];
    if |t.up| > 0 {
      LayerLenGrows(t.n, 1, |t.up|);
    }
  }

  lemma UnwindToPayload(t: Stack)
    requires t.Valid() && |t.up| >= 1 && t.NoWrapAbove(1)
    ensures |t.down| == |t.up| && |t.f| >= PAYLOAD_OFF + t.n
    ensures var d := t.Down(|t.up|);
            && |d| == |t.f| && Payload(d, t.n) == Payload(t.f, t.n)
            && (SameUpTo(t.f, d, PAYLOAD_OFF + t.n) <==> t.HasRoom(|t.up|) && Get16(t.f, IP_CHECK_AT) != 0xFFFF)
  {
    hide *;
    var k := |t.up|;
    ValidStack(t);
    Bottom(t);
    Unwind(t, k - 1);
    PeelLayer(t, 0, t.Down(k - 1), t.down[k - 1]);
    DownStep(t, k - 1);
    PeeledPayload(t, t.Down(k - 1), t.Down(k));
  }

  lemma PeeledPayload(t: Stack, d: bytes, r: bytes)
    requires t.Valid() && |t.up| >= 1 && t.NoWrapAbove(1) && Peeled(t, 0, d, r)
    ensures |r| == |t.f| >= PAYLOAD_OFF + t.n && Payload(r, t.n) == Payload(t.f, t.n)
    ensures SameUpTo(t.f, r, PAYLOAD_OFF + t.n) <==> t.HasRoom(|t.up|) && Get16(t.f, IP_CHECK_AT) != 0xFFFF
  {
    Bottom(t);
    hide Stack.Valid, Stack.Up, Stack.HasRoom, Stack.Len, Stack.Peelable, Payload, SameUpTo;
  }

  /** The stack law: after any positive number of encrypting runs, each on a payload the hook
      encrypts, and as many decrypting runs, everything up to the end of the payload is as it was,
      the UDP checksum aside, exactly when the IP total length had room for all layers and the IP
      checksum field was not 0xFFFF. The payload also comes back when the length wrapped on the
      first layer. */
  lemma NestedRoundTrip(f: bytes, n: nat, enc: CryptoConfig, dec: CryptoConfig, slot: Slot,
                        os: seq<Oracle>, os': seq<Oracle>)
    requires Sealable(f, enc, n) && Peers(enc, dec) && slot.Held?
    requires |os| == |os'| >= 1 && AllRunsSucceed(os) && AllRunsSucceed(os')
    requires LayersFit(n, |os|)
    ensures Ready(RunAll(f, enc, slot, os), enc, 16 * (n / 16 + 1) + 24 + 32 * (|os| - 1))
    ensures var d := RunAll(RunAll(f, enc, slot, os), dec, slot, os');
            && (SameUpTo(f, d, PAYLOAD_OFF + n) <==> Room(f, n, |os|) && Get16(f, IP_CHECK_AT) != 0xFFFF)
            && (Room(f, n, |os|) || !Room(f, n, 1) ==> |d| == |f| && Payload(d, n) == Payload(f, n))
  {
    hide Run, SameUpTo, Room, Ready;
    var t := Stack(f, n, enc, dec, slot, os, os');
    WholeStack(t);
    UpReady(t, |os|);
    LayerLenClosedForm(n, |os|);
    if t.NoWrapAbove(1) {
      UnwindToPayload(t);
    } else {
      WrappedIsNotSame(t);
    }
  }

  lemma WholeStack(t: Stack)
    requires |t.up| == |t.down|
    ensures t.Up(|t.up|) == RunAll(t.f, t.enc, t.slot, t.up)
    ensures t.Down(|t.up|) == RunAll(RunAll(t.f, t.enc, t.slot, t.up), t.dec, t.slot, t.down)
  {
    hide RunAll;
    assert t.up[..|t.up|] == t.up && t.down[..|t.up|] == t.down;
  }

  /** Where the payload does not come back: unless a link-layer trailer of 32 bytes or more hides
      the missing bytes, exactly when the length wraps on a layer other than the first. The hook
      that takes that layer off leaves the UDP length as it is, so every later one refuses the
      packet. */
  lemma NestedPayload(f: bytes, n: nat, enc: CryptoConfig, dec: CryptoConfig, slot: Slot,
                      os: seq<Oracle>, os': seq<Oracle>)
    requires Sealable(f, enc, n) && Peers(enc, dec) && slot.Held?
    requires |os| == |os'| >= 1 && AllRunsSucceed(os) && AllRunsSucceed(os')
    requires LayersFit(n, |os|) && |f| < PAYLOAD_OFF + n + 32
    ensures var d := RunAll(RunAll(f, enc, slot, os), dec, slot, os');
            (|d| == |f| && Payload(d, n) == Payload(f, n)) <==> Room(f, n, |os|) || !Room(f, n, 1)
  {
    hide Run, Room;
    var t := Stack(f, n, enc, dec, slot, os, os');
    NestedRoundTrip(f, n, enc, dec, slot, os, os');
    WholeStack(t);
    if !t.NoWrapAbove(1) {
      StaysTooLong(t);
    }
  }

  /** Two layers on this packet: the length wraps on the second, and the payload does not come
      back. */
  lemma SecondLayerWraps(slot: Slot, os: seq<Oracle>, os': seq<Oracle>)
    requires slot.Held? && |os| == |os'| == 2 && AllRunsSucceed(os) && AllRunsSucceed(os')
    ensures var f := ExampleFrame(65500);
            var enc, dec := ExampleConfig(ACTION_ENCRYPT), ExampleConfig(ACTION_DECRYPT);
            var d := RunAll(RunAll(f, enc, slot, os), dec, slot, os');
            && Sealable(f, enc, 15) && LayersFit(15, 2) && Room(f, 15, 1) && !Room(f, 15, 2)
            && |d| == |f| + 25 && Get16(d, UDP_LEN_AT) == 80
  {
    hide Run, ExampleFrame;
    var f := ExampleFrame(65500);
    var t := Stack(f, 15, ExampleConfig(ACTION_ENCRYPT), ExampleConfig(ACTION_DECRYPT), slot, os, os');
    ExampleIsSealable(65500);
    assert LayerLen(15, 0) == 15 && LayerLen(15, 1) == 40 && LayerLen(15, 2) == 72;
    hide Sealable, Peers;
    WholeStack(t);
    StaysTooLong(t);
  }
}
