/** Laws of `update_lengths` and of the transparent hook's counters. */
module TransparentLaws {
  import opened Bytes
  import opened Checksum
  import opened Layout
  import opened Kernel
  import opened Hooks
  import opened Stats
  import opened TransparentSpec
  import opened TransparentRoundTrip

  // ----- The IPv4 header checksum -------------------------------------------------------------

  /** The header with its checksum field zeroed. */
  function ZeroedHeader(f: bytes): (h: bytes)
    requires |f| >= PAYLOAD_OFF
    ensures |h| == IP_BYTES
  {
    Splice(At(f, ETH_BYTES, IP_BYTES), 10, [0, 0])
  }

  /** The checksum computed from scratch over the header. */
  function HeaderChecksum(f: bytes): u16
    requires |f| >= PAYLOAD_OFF
  {
    TwoFoldChecksum(ZeroedHeader(f))
  }

  lemma SumAtLeast(s: bytes)
    requires |s| >= 4
    ensures Sum16(s) >= Get16(s, 0) as int + Get16(s, 2)
  {
    assert Get16(s[2..], 0) == Get16(s, 2);
  }

  lemma MovedZeroedHeader(f: bytes, g: bytes, delta: nat, add: bool)
    requires |f| >= PAYLOAD_OFF && |g| >= PAYLOAD_OFF && HeadersMoved(f, g, delta, add)
    ensures ZeroedHeader(g) == Splice(ZeroedHeader(f), 2, Put16(Moved(Get16(f, IP_LEN_AT), delta, add)))
  {
    var v := Moved(Get16(f, IP_LEN_AT), delta, add);
    assert g[16] == Put16(v)[0] && g[17] == Put16(v)[1];
  }

  /** A correct header checksum stays correct, bit for bit. */
  lemma UpdateLengthsKeepsChecksum(f: bytes, delta: nat, add: bool, o: LengthOracle, v: Verdict)
    requires |f| >= PAYLOAD_OFF && Ihl(f) == 5
    requires UpdateLengths(f, delta, add, o, v).Go?
    requires Get16(f, IP_CHECK_AT) == HeaderChecksum(f)
    ensures var g := UpdateLengths(f, delta, add, o, v).frame;
            Get16(g, IP_CHECK_AT) == HeaderChecksum(g)
  {
    hide UpdateLengths;
    UpdateLengthsLayout(f, delta, add, o, v);
    MovedChecksum(f, UpdateLengths(f, delta, add, o, v).frame, delta, add);
  }

  lemma MovedChecksum(f: bytes, g: bytes, delta: nat, add: bool)
    requires |f| >= PAYLOAD_OFF && |g| >= PAYLOAD_OFF && Ihl(f) == 5 && HeadersMoved(f, g, delta, add)
    requires Get16(f, IP_CHECK_AT) == HeaderChecksum(f)
    ensures Get16(g, IP_CHECK_AT) == HeaderChecksum(g)
  {
    hide Sum16, FullFold, TwoFoldChecksum, CsumReplace, Splice;
    var from, to := Get16(f, IP_LEN_AT), Moved(Get16(f, IP_LEN_AT), delta, add);
    var h := ZeroedHeader(f);
    MovedZeroedHeader(f, g, delta, add);
    HeaderFields(f);
    Sum16Splice(h, 2, to);
    SumAtLeast(h);
    ShortChecksum(h);
    ShortChecksum(ZeroedHeader(g));
    CsumReplaceIsExact(Sum16(h) - from, from, to);
  }

  lemma HeaderFields(f: bytes)
    requires |f| >= PAYLOAD_OFF && Ihl(f) == 5
    ensures Get16(ZeroedHeader(f), 0) > 0
    ensures Get16(ZeroedHeader(f), 2) == Get16(f, IP_LEN_AT)
  {
  }

  lemma ShortChecksum(s: bytes)
    requires |s| <= 131076
    ensures TwoFoldChecksum(s) == Complement(FullFold(Sum16(s)))
  {
    hide Sum16, FullFold, FoldOnce;
    TwoFoldsSuffice(s);
  }

  /** The frame on the wire has a correct header checksum if the frame before encryption had. */
  lemma WireChecksum(f: bytes, n: nat, cfg: CryptoConfig, slot: Slot, o: Oracle)
    requires Sealable(f, cfg, n) && cfg.action == ACTION_ENCRYPT && slot.Held? && AllSucceed(o)
    requires Get16(f, IP_CHECK_AT) == HeaderChecksum(f)
    ensures var e := Run(f, Some(cfg), slot, o).frame;
            |e| >= PAYLOAD_OFF && Get16(e, IP_CHECK_AT) == HeaderChecksum(e) && Get16(e, UDP_CHECK_AT) == 0
  {
    hide Run, HeaderChecksum;
    RunSeals(f, n, cfg, slot, o);
    MovedChecksum(f, Run(f, Some(cfg), slot, o).frame, Delta(n), true);
    RunClearsUdpChecksum(f, n, cfg, slot, o);
  }

  lemma RunClearsUdpChecksum(f: bytes, n: nat, cfg: CryptoConfig, slot: Slot, o: Oracle)
    requires Sealable(f, cfg, n) && cfg.action == ACTION_ENCRYPT && slot.Held? && AllSucceed(o)
    ensures |Run(f, Some(cfg), slot, o).frame| >= PAYLOAD_OFF
    ensures Get16(Run(f, Some(cfg), slot, o).frame, UDP_CHECK_AT) == 0
  {
    hide Crypted, UpdateLengths, Prepare, Framed, EventOf;
    assert Admitted(f, Some(cfg)) == Admit(n);
    assert |f| >= PAYLOAD_OFF + n;
    hide Admitted, Ready;
    PrepareSucceeds(f, n, o);
    PrepareGoes(f, n, o);
    UpdateLengthsLayout(Framed(f, n, o), Delta(n), true, o.lengths, Bad(BadIp));
    hide HeadersMoved;
    var p := Prepare(f, n, o).frame;
    CryptedLayout(p, BodyLen(n), Encrypt, slot, o);
    var e := Run(f, Some(cfg), slot, o).frame;
    assert e == Crypted(p, BodyLen(n), Encrypt, slot, o).frame;
    assert e[40] == p[40] && e[41] == p[41];
  }

  /** A correct header checksum is never 0xFFFF, the one value the updates do not bring back. */
  lemma CorrectChecksumIsNotFull(f: bytes)
    requires |f| >= PAYLOAD_OFF && Ihl(f) == 5
    ensures HeaderChecksum(f) != 0xFFFF
  {
    hide Sum16, FullFold, TwoFoldChecksum, Splice;
    HeaderFields(f);
    SumAtLeast(ZeroedHeader(f));
    ShortChecksum(ZeroedHeader(f));
    FullFoldIsResidue(Sum16(ZeroedHeader(f)));
  }

  /** So every frame with a correct header checksum survives the round trip, if its IP length has
      room for the padding and the tail. */
  lemma CorrectFramesSurvive(f: bytes, n: nat, enc: CryptoConfig, dec: CryptoConfig, slot: Slot, o: Oracle, o': Oracle)
    requires Sealable(f, enc, n) && Peers(enc, dec) && slot.Held? && AllSucceed(o) && AllSucceed(o')
    requires Get16(f, IP_CHECK_AT) == HeaderChecksum(f)
    ensures SameUpTo(f, Run(Run(f, Some(enc), slot, o).frame, Some(dec), slot, o').frame, PAYLOAD_OFF + n)
            <==> NoWrap(f, Delta(n))
  {
    hide Run, HeaderChecksum;
    CorrectChecksumIsNotFull(f);
    RoundTrip(f, n, enc, dec, slot, o, o');
  }

  // ----- Whatever happens ---------------------------------------------------------------------

  /** The bytes of the first 42 that no run writes, whatever the helpers do: everything but the IP
      length and checksum and the UDP length and checksum. */
  predicate Untouchable(i: int) {
    0 <= i < PAYLOAD_OFF && !(16 <= i < 18) && !(24 <= i < 26) && !(38 <= i < 42)
  }

  ghost predicate HeadersKept(f: bytes, g: bytes) {
    |g| >= PAYLOAD_OFF && forall i :: Untouchable(i) && i < |f| ==> g[i] == f[i]
  }

  lemma StepsKeepHeaders(f: bytes, delta: nat, add: bool, o: LengthOracle, v: Verdict)
    requires |f| >= PAYLOAD_OFF
    ensures HeadersKept(f, UpdateLengths(f, delta, add, o, v).frame)
  {
    hide CsumReplace, Moved;
  }

  lemma CryptedKeepsHeaders(f: bytes, b: nat, d: Direction, slot: Slot, o: Oracle)
    requires PAYLOAD_OFF + b + HEADER_BYTES <= |f|
    ensures HeadersKept(f, Crypted(f, b, d, slot, o).frame)
  {
    hide IvOf;
  }

  lemma FinishKeepsHeaders(f: bytes, b: nat, o: Oracle)
    requires |f| >= PAYLOAD_OFF + b + HEADER_BYTES && b > 0
    ensures HeadersKept(f, Finish(f, b, o).frame)
  {
    hide UpdateLengths, HeadersKept;
    SelfKept(f);
    var strip := StripLen(f[PAYLOAD_OFF + b - 1], b);
    if strip.Some? {
      CutKeepsHeaders(f, strip.value + HEADER_BYTES, o);
    }
  }

  lemma SelfKept(f: bytes)
    requires |f| >= PAYLOAD_OFF
    ensures HeadersKept(f, f)
  {
  }

  lemma KeptTwice(f: bytes, g: bytes, h: bytes)
    requires HeadersKept(f, g) && HeadersKept(g, h)
    ensures HeadersKept(f, h)
  {
  }

  lemma CutKeepsHeaders(f: bytes, delta: nat, o: Oracle)
    requires |f| - delta >= PAYLOAD_OFF
    ensures HeadersKept(f, UpdateLengths(Resized(f, |f| - delta, o.fill), delta, false, o.lengths, DoneThenFail).frame)
  {
    hide UpdateLengths;
    var r := Resized(f, |f| - delta, o.fill);
    assert HeadersKept(f, r);
    StepsKeepHeaders(r, delta, false, o.lengths, DoneThenFail);
    KeptTwice(f, r, UpdateLengths(r, delta, false, o.lengths, DoneThenFail).frame);
  }

  lemma PrepareKeepsHeaders(f: bytes, n: nat, o: Oracle)
    requires |f| >= PAYLOAD_OFF + n
    ensures HeadersKept(f, Prepare(f, n, o).frame)
  {
    hide UpdateLengths, IvOf, Header;
    SelfKept(f);
    var s := GrowAndPad(f, n, o);
    assert HeadersKept(f, s.frame);
    if s.Go? {
      var h := WithTail(s.frame, BodyLen(n), o.now);
      assert HeadersKept(s.frame, h);
      StepsKeepHeaders(h, Delta(n), true, o.lengths, Bad(BadIp));
      KeptTwice(f, s.frame, h);
      KeptTwice(f, h, UpdateLengths(h, Delta(n), true, o.lengths, Bad(BadIp)).frame);
    }
  }

  /** The outcomes that include `crypto_ok`. */
  predicate CountedOk(v: Verdict) {
    v.Done? || FailedAfterOk(v)
  }

  /** No run, successful or not, touches the Ethernet header, the addresses, the ports or any other
      header byte outside the lengths and checksums. A packet that is not admitted is left alone
      altogether. An event is emitted exactly for the packets counted as `crypto_ok`, if the ring has
      room. */
  lemma RunKeepsHeaders(f: bytes, config: Option<CryptoConfig>, slot: Slot, o: Oracle)
    ensures var r := Run(f, config, slot, o);
            && (Admitted(f, config).Stop? ==> r.frame == f)
            && (Admitted(f, config).Admit? ==> HeadersKept(f, r.frame))
            && (r.event.Some? <==> o.event.reserve && CountedOk(r.verdict))
  {
    match Admitted(f, config)
    case Stop(_) =>
    case Admit(n) =>
      if config.value.action == ACTION_ENCRYPT {
        EncryptKeepsHeaders(f, n, config.value, slot, o);
      } else {
        DecryptKeepsHeaders(f, n, config.value, slot, o);
      }
  }

  lemma EncryptKeepsHeaders(f: bytes, n: nat, cfg: CryptoConfig, slot: Slot, o: Oracle)
    requires |f| >= PAYLOAD_OFF + n
    ensures var r := EncryptRun(f, n, cfg, slot, o);
            HeadersKept(f, r.frame) && (r.event.Some? <==> o.event.reserve && CountedOk(r.verdict))
  {
    hide Prepare, Crypted, HeadersKept, EventOf;
    PrepareKeepsHeaders(f, n, o);
    var p := Prepare(f, n, o);
    if p.Go? {
      CryptedKeepsHeaders(p.frame, BodyLen(n), Encrypt, slot, o);
      KeptTwice(f, p.frame, Crypted(p.frame, BodyLen(n), Encrypt, slot, o).frame);
    }
  }

  lemma DecryptKeepsHeaders(f: bytes, n: nat, cfg: CryptoConfig, slot: Slot, o: Oracle)
    requires |f| >= PAYLOAD_OFF + n
    ensures var r := DecryptRun(f, n, cfg, slot, o);
            HeadersKept(f, r.frame) && (r.event.Some? <==> o.event.reserve && CountedOk(r.verdict))
  {
    hide Crypted, HeadersKept, EventOf, UpdateLengths;
    SelfKept(f);
    if CheckTail(f, n, o).Go? {
      var b := n - HEADER_BYTES;
      CryptedKeepsHeaders(f, b, Decrypt, slot, o);
      var t := Crypted(f, b, Decrypt, slot, o);
      if t.Go? {
        FinishKeepsHeaders(t.frame, b, o);
        KeptTwice(f, t.frame, Finish(t.frame, b, o).frame);
      }
    }
  }

  // ----- There and back -----------------------------------------------------------------------

  const ALL_LENGTH_STEPS := LengthOracle(true, true, true, true, true, true)

  /** Adding `delta` to both lengths can be undone exactly when neither sum wrapped; after a wrap
      the later guard always rejects and nothing more is changed. */
  lemma AddThenSubtract(f: bytes, delta: nat, v: Verdict)
    requires |f| >= PAYLOAD_OFF && 25 <= delta <= 40
    ensures UpdateLengths(f, delta, true, ALL_LENGTH_STEPS, v).Go?
    ensures var g := UpdateLengths(f, delta, true, ALL_LENGTH_STEPS, v).frame;
            var s := UpdateLengths(g, delta, false, ALL_LENGTH_STEPS, v);
            && (s.Go? <==> Get16(f, IP_LEN_AT) + delta <= 0xFFFF && Get16(f, UDP_LEN_AT) + delta <= 0xFFFF)
            && (s.Go? ==> HeadersBack(f, s.frame))
            && (!s.Go? ==> s.frame == g)
  {
    var s1 := UpdateLengths(f, delta, true, ALL_LENGTH_STEPS, v);
    assert s1.Go?;
    UpdateLengthsLayout(f, delta, true, ALL_LENGTH_STEPS, v);
    AddThenSubtractMoved(f, s1.frame, delta, v);
  }

  lemma AddThenSubtractMoved(f: bytes, g: bytes, delta: nat, v: Verdict)
    requires |f| >= PAYLOAD_OFF && |g| >= PAYLOAD_OFF && 25 <= delta <= 40 && HeadersMoved(f, g, delta, true)
    ensures var s := UpdateLengths(g, delta, false, ALL_LENGTH_STEPS, v);
            && (s.Go? <==> Get16(f, IP_LEN_AT) + delta <= 0xFFFF && Get16(f, UDP_LEN_AT) + delta <= 0xFFFF)
            && (s.Go? ==> HeadersBack(f, s.frame))
            && (!s.Go? ==> s.frame == g)
  {
    MovedBack(Get16(f, IP_LEN_AT), delta);
    MovedBack(Get16(f, UDP_LEN_AT), delta);
    var s := UpdateLengths(g, delta, false, ALL_LENGTH_STEPS, v);
    if s.Go? {
      UpdateLengthsLayout(g, delta, false, ALL_LENGTH_STEPS, v);
      HeadersMovedBack(f, g, s.frame, delta);
    }
  }

  // ----- Counters -----------------------------------------------------------------------------

  /** One packet and what the kernel does to its run. */
  datatype Arrival = Arrival(frame: bytes, config: Option<CryptoConfig>, slot: Slot, oracle: Oracle)

  function VerdictOf(a: Arrival): Verdict {
    Run(a.frame, a.config, a.slot, a.oracle).verdict
  }

  /** The counters of one CPU after a sequence of packets. */
  function RecordAll(s: Stats, arrivals: seq<Arrival>): Stats
    decreases |arrivals|
  {
    if arrivals == [] then s
    else Record(RecordAll(s, arrivals[..|arrivals| - 1]), VerdictOf(arrivals[|arrivals| - 1]))
  }

  /** The sum over all packets of a number that depends on the verdict. */
  function SumOf(arrivals: seq<Arrival>, w: Verdict -> int): int
    decreases |arrivals|
  {
    if arrivals == [] then 0
    else SumOf(arrivals[..|arrivals| - 1], w) + w(VerdictOf(arrivals[|arrivals| - 1]))
  }

  function KfuncFailures(v: Verdict): int {
    if KfuncFailed(v) then 1 else 0
  }

  function LateFailures(v: Verdict): int {
    if FailedAfterOk(v) then 1 else 0
  }

  function FlowShift(v: Verdict): int {
    0 - KfuncFailures(v) - LateFailures(v)
  }

  /** If one run moves a balance by a weight of its verdict, all runs move it by the sum. */
  lemma {:induction false} RunsMove(arrivals: seq<Arrival>, balance: Stats -> int, w: Verdict -> int)
    requires forall s: Stats, v: Verdict {:trigger Record(s, v)} :: Congruent(balance(Record(s, v)), balance(s) + w(v))
    requires balance(ZERO) == 0
    ensures Congruent(balance(RecordAll(ZERO, arrivals)), SumOf(arrivals, w))
    decreases |arrivals|
  {
    hide Record, Run;
    if arrivals != [] {
      hide Congruent;
      var rest, v := arrivals[..|arrivals| - 1], VerdictOf(arrivals[|arrivals| - 1]);
      RunsMove(rest, balance, w);
      var s := RecordAll(ZERO, rest);
      CongruentChain(balance(Record(s, v)), balance(s), w(v), SumOf(rest, w), SumOf(arrivals, w));
    } else {
      CongruentBy(balance(ZERO), 0, 0);
    }
  }

  lemma {:induction false} FlowShiftSplits(arrivals: seq<Arrival>)
    ensures SumOf(arrivals, FlowShift) == 0 - SumOf(arrivals, KfuncFailures) - SumOf(arrivals, LateFailures)
    decreases |arrivals|
  {
    hide Run;
    if arrivals != [] {
      FlowShiftSplits(arrivals[..|arrivals| - 1]);
    }
  }

  /** How far one run throws the two balances of the counters. */
  lemma RecordMovesBalances(s: Stats, v: Verdict)
    ensures Congruent(Flow(Record(s, v)), Flow(s) + FlowShift(v))
    ensures Congruent(Unexplained(Record(s, v)), Unexplained(s) + KfuncFailures(v))
  {
    hide Congruent, Flow, Unexplained, Record;
    RecordIsBumpAll(s, v);
    BumpAllMovesBalances(s, Increments(v));
    OutcomeWeights(v);
  }

  /** The counter law over all runs, modulo the width of the counters: with `k` kfunc failures and
      `p` failures recorded after `crypto_ok`,
      seen + k + p = passed + crypto_ok + crypto_fail + malformed, and malformed is the sum of the
      seven reasons plus `k`. */
  lemma CounterLaw(arrivals: seq<Arrival>)
    ensures var s := RecordAll(ZERO, arrivals);
            var k, p := SumOf(arrivals, KfuncFailures), SumOf(arrivals, LateFailures);
            && Congruent(s.seen + k + p, s.passed + s.ok + s.fail + s.malformed)
            && Congruent(s.malformed, ReasonTotal(s) + k)
  {
    hide *;
    ZeroFlow();
    ZeroUnexplained();
    forall s: Stats, v: Verdict {:trigger Record(s, v)}
      ensures Congruent(Flow(Record(s, v)), Flow(s) + FlowShift(v))
      ensures Congruent(Unexplained(Record(s, v)), Unexplained(s) + KfuncFailures(v))
    {
      RecordMovesBalances(s, v);
    }
    RunsMove(arrivals, Flow, FlowShift);
    RunsMove(arrivals, Unexplained, KfuncFailures);
    FlowShiftSplits(arrivals);
    BalancesAreSums(RecordAll(ZERO, arrivals), SumOf(arrivals, KfuncFailures), SumOf(arrivals, LateFailures));
  }

  lemma BalancesAreSums(s: Stats, k: int, p: int)
    requires Congruent(Flow(s), 0 - k - p) && Congruent(Unexplained(s), k)
    ensures Congruent(s.seen + k + p, s.passed + s.ok + s.fail + s.malformed)
    ensures Congruent(s.malformed, ReasonTotal(s) + k)
  {
    CongruentShift(Flow(s), 0 - k - p, s.seen + k + p, s.passed + s.ok + s.fail + s.malformed);
    CongruentShift(Unexplained(s), k, s.malformed, ReasonTotal(s) + k);
  }

  // ----- Events -------------------------------------------------------------------------------

  function EventsOf(a: Arrival): int {
    if Run(a.frame, a.config, a.slot, a.oracle).event.Some? then 1 else 0
  }

  /** A packet counted as `crypto_ok` for whose event the ring had no room. */
  function LostEvents(a: Arrival): int {
    if CountedOk(VerdictOf(a)) && !a.oracle.event.reserve then 1 else 0
  }

  function SumOver(arrivals: seq<Arrival>, w: Arrival -> int): int
    decreases |arrivals|
  {
    if arrivals == [] then 0
    else SumOver(arrivals[..|arrivals| - 1], w) + w(arrivals[|arrivals| - 1])
  }

  function OkCounts(v: Verdict): int {
    if CountedOk(v) then 1 else 0
  }

  function OkOf(s: Stats): int {
    s.ok
  }

  lemma {:induction false} OkSplits(arrivals: seq<Arrival>)
    ensures SumOf(arrivals, OkCounts) == SumOver(arrivals, EventsOf) + SumOver(arrivals, LostEvents)
    decreases |arrivals|
  {
    hide Run;
    if arrivals != [] {
      var a := arrivals[|arrivals| - 1];
      RunKeepsHeaders(a.frame, a.config, a.slot, a.oracle);
      OkSplits(arrivals[..|arrivals| - 1]);
    }
  }

  lemma OkIsField(s: Stats)
    ensures OkOf(s) == s.ok && OkOf(ZERO) == 0
  {
  }

  lemma RecordCountsOk(s: Stats, v: Verdict)
    ensures Congruent(OkOf(Record(s, v)), OkOf(s) + OkCounts(v))
  {
    CongruentBy(OkOf(Record(s, v)), OkOf(s) + OkCounts(v), if CountedOk(v) && s.ok == U64 - 1 then -1 else 0);
  }

  /** Over any sequence of packets the events emitted, with those for which the ring had no room, are
      the packets counted as `crypto_ok`. */
  lemma EventsMatchOk(arrivals: seq<Arrival>)
    ensures Congruent(RecordAll(ZERO, arrivals).ok, SumOver(arrivals, EventsOf) + SumOver(arrivals, LostEvents))
  {
    hide *;
    OkIsField(RecordAll(ZERO, arrivals));
    forall s: Stats, v: Verdict {:trigger Record(s, v)}
      ensures Congruent(OkOf(Record(s, v)), OkOf(s) + OkCounts(v))
    {
      RecordCountsOk(s, v);
    }
    RunsMove(arrivals, OkOf, OkCounts);
    OkSplits(arrivals);
  }
}
