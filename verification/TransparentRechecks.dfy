/** On a linear packet the pointer checks repeated after each helper never fail, so an admitted
    packet never leaves the transparent hook before its outcome is counted. */
module TransparentRechecks {
  import opened Bytes
  import opened Layout
  import opened Kernel
  import opened Stats
  import opened TransparentSpec

  /** Any frame that keeps byte 14 of an admitted one and is long enough passes. */
  lemma PassesWhenIhlKept(f: bytes, g: bytes, need: nat)
    requires |f| > ETH_BYTES && Ihl(f) == 5 && |g| >= PAYLOAD_OFF + need && g[ETH_BYTES] == f[ETH_BYTES]
    ensures RecheckPasses(g, need) && Ihl(g) == 5
  {
  }

  lemma UpdateLengthsKeepsIhl(f: bytes, delta: nat, add: bool, o: LengthOracle, v: Verdict)
    requires |f| >= PAYLOAD_OFF
    ensures UpdateLengths(f, delta, add, o, v).frame[ETH_BYTES] == f[ETH_BYTES]
  {
  }

  /** After growing and padding, whatever padding is stored. */
  lemma GrowRecheck(f: bytes, n: nat, k: nat, o: Oracle)
    requires |f| >= PAYLOAD_OFF + n && Ihl(f) == 5 && k <= PadLen(n)
    ensures RecheckPasses(Resized(f, |f| + Delta(n), o.fill), BodyLen(n) + HEADER_BYTES)
    ensures RecheckPasses(Padded(f, n, k, o), BodyLen(n) + HEADER_BYTES) && Ihl(Padded(f, n, k, o)) == 5
  {
    PassesWhenIhlKept(f, Resized(f, |f| + Delta(n), o.fill), BodyLen(n) + HEADER_BYTES);
    PassesWhenIhlKept(f, Padded(f, n, k, o), BodyLen(n) + HEADER_BYTES);
  }

  lemma GrownRecheck(f: bytes, n: nat, o: Oracle)
    requires |f| >= PAYLOAD_OFF + n && Ihl(f) == 5 && GrowAndPad(f, n, o).Go?
    ensures var g := GrowAndPad(f, n, o).frame;
            RecheckPasses(g, BodyLen(n) + HEADER_BYTES) && Ihl(g) == 5
  {
    GrowRecheck(f, n, PadLen(n), o);
  }

  /** After the tail header, and after the lengths. */
  lemma TailRechecks(g: bytes, b: u16, delta: nat, o: Oracle)
    requires |g| >= PAYLOAD_OFF + b + HEADER_BYTES && Ihl(g) == 5
    ensures RecheckPasses(WithTail(g, b, o.now), b + HEADER_BYTES)
    ensures RecheckPasses(StoreTail(g, b, delta, o).frame, b + HEADER_BYTES)
    ensures Ihl(StoreTail(g, b, delta, o).frame) == 5
  {
    var h := WithTail(g, b, o.now);
    PassesWhenIhlKept(g, h, b + HEADER_BYTES);
    UpdateLengthsKeepsIhl(h, delta, true, o.lengths, Bad(BadIp));
    PassesWhenIhlKept(g, StoreTail(g, b, delta, o).frame, b + HEADER_BYTES);
  }

  /** The re-check after the kfunc, in both directions and for every outcome of the kfunc. */
  lemma CipherRecheck(f: bytes, b: nat, d: Direction, slot: Slot, o: Oracle)
    requires PAYLOAD_OFF + b + HEADER_BYTES <= |f| && Ihl(f) == 5
    ensures var g := Crypted(f, b, d, slot, o).frame;
            RecheckPasses(g, b) && Ihl(g) == 5
  {
    var g := Crypted(f, b, d, slot, o).frame;
    assert g[ETH_BYTES] == f[ETH_BYTES];
    PassesWhenIhlKept(f, g, b);
  }

  /** The re-check after the packet is cut. */
  lemma ShrinkRecheck(f: bytes, b: nat, pad: nat, o: Oracle)
    requires |f| >= PAYLOAD_OFF + b + HEADER_BYTES && pad <= b && Ihl(f) == 5
    ensures RecheckPasses(Resized(f, |f| - (pad + HEADER_BYTES), o.fill), 0)
  {
    PassesWhenIhlKept(f, Resized(f, |f| - (pad + HEADER_BYTES), o.fill), 0);
  }
}
