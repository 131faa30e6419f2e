/** The per-CPU packet counters and the outcomes the hooks record in them. */
module Stats {
  const U64 := 0x1_0000_0000_0000_0000

  type u64 = x: int | 0 <= x < U64

  datatype Counter =
    | Seen | Passed | CryptoOk | CryptoFail | Malformed
    | BadEth | BadIp | BadUdp | BadMagic | BadLength | BadAlignment | NoCtx

  /** `struct ebaf_crypto_stats`. */
  datatype Stats = Stats(
    seen: u64, passed: u64, ok: u64, fail: u64, malformed: u64,
    badEth: u64, badIp: u64, badUdp: u64, badMagic: u64, badLength: u64, badAlignment: u64, noCtx: u64)

  function Next(x: u64): u64 {
    if x + 1 < U64 then x + 1 else 0
  }

  /** `__sync_fetch_and_add(counter, 1)` on one counter. */
  function Bump(s: Stats, c: Counter): Stats {
    match c
    case Seen => s.(seen := Next(s.seen))
    case Passed => s.(passed := Next(s.passed))
    case CryptoOk => s.(ok := Next(s.ok))
    case CryptoFail => s.(fail := Next(s.fail))
    case Malformed => s.(malformed := Next(s.malformed))
    case BadEth => s.(badEth := Next(s.badEth))
    case BadIp => s.(badIp := Next(s.badIp))
    case BadUdp => s.(badUdp := Next(s.badUdp))
    case BadMagic => s.(badMagic := Next(s.badMagic))
    case BadLength => s.(badLength := Next(s.badLength))
    case BadAlignment => s.(badAlignment := Next(s.badAlignment))
    case NoCtx => s.(noCtx := Next(s.noCtx))
  }

  predicate IsReason(c: Counter) {
    c.BadEth? || c.BadIp? || c.BadUdp? || c.BadMagic? || c.BadLength? || c.BadAlignment? || c.NoCtx?
  }

  /** The seven counters that say why a packet is malformed. */
  type Reason = c: Counter | IsReason(c) witness BadEth

  /** The value of one counter. */
  function Count(s: Stats, c: Counter): u64 {
    match c
    case Seen => s.seen
    case Passed => s.passed
    case CryptoOk => s.ok
    case CryptoFail => s.fail
    case Malformed => s.malformed
    case BadEth => s.badEth
    case BadIp => s.badIp
    case BadUdp => s.badUdp
    case BadMagic => s.badMagic
    case BadLength => s.badLength
    case BadAlignment => s.badAlignment
    case NoCtx => s.noCtx
  }

  /** An increment moves its own counter and no other. */
  lemma BumpCounts(s: Stats, c: Counter, d: Counter)
    ensures Count(Bump(s, c), d) == if c == d then Next(Count(s, d)) else Count(s, d)
  {
    match c {
      case _ =>
    }
  }

  /** How one run of a hook ends. `CipherFailed` and the two `Done...` outcomes that record a
      failure after `crypto_ok` occur in the transparent hook only. */
  datatype Verdict =
    | Pass
    | Fail
    | Bad(reason: Reason)
    | CipherFailed
    | Done
    | DoneThenBad
    | DoneThenFail

  /** The increments a run makes, in order. */
  function Increments(v: Verdict): seq<Counter> {
    match v
    case Pass => [Seen, Passed]
    case Fail => [Seen, CryptoFail]
    case Bad(r) => [Seen, Malformed, r]
    case CipherFailed => [Seen, Malformed, CryptoFail]
    case Done => [Seen, CryptoOk]
    case DoneThenBad => [Seen, CryptoOk, Malformed, BadLength]
    case DoneThenFail => [Seen, CryptoOk, CryptoFail]
  }

  /** What a run adds to the counters after `packets_seen`. */
  function Settle(s: Stats, v: Verdict): Stats {
    match v
    case Pass => Bump(s, Passed)
    case Fail => Bump(s, CryptoFail)
    case Bad(r) => Bump(Bump(s, Malformed), r)
    case CipherFailed => Bump(Bump(s, Malformed), CryptoFail)
    case Done => Bump(s, CryptoOk)
    case DoneThenBad => Bump(Bump(Bump(s, CryptoOk), Malformed), BadLength)
    case DoneThenFail => Bump(Bump(s, CryptoOk), CryptoFail)
  }

  /** The counters after one run. */
  function Record(s: Stats, v: Verdict): Stats {
    Settle(Bump(s, Seen), v)
  }

  function BumpAll(s: Stats, cs: seq<Counter>): Stats
    decreases cs
  {
    if cs == [] then s else BumpAll(Bump(s, cs[0]), cs[1..])
  }

  lemma BumpAllUpToFour(s: Stats, cs: seq<Counter>)
    requires 2 <= |cs| <= 4
    ensures var t := Bump(Bump(s, cs[0]), cs[1]);
            var u := if |cs| > 2 then Bump(t, cs[2]) else t;
            BumpAll(s, cs) == if |cs| > 3 then Bump(u, cs[3]) else u
  {
    hide Bump;
    var r1 := cs[1..];
    var r2 := r1[1..];
    var t := Bump(Bump(s, cs[0]), cs[1]);
    assert BumpAll(s, cs) == BumpAll(Bump(s, cs[0]), r1) == BumpAll(t, r2);
    if r2 != [] {
      var r3 := r2[1..];
      assert BumpAll(t, r2) == BumpAll(Bump(t, cs[2]), r3);
      if r3 != [] {
        assert r3[1..] == [];
      }
    }
  }

  /** Recording an outcome is making its increments one by one. */
  lemma RecordIsBumpAll(s: Stats, v: Verdict)
    ensures Record(s, v) == BumpAll(s, Increments(v))
  {
    hide Bump, BumpAll;
    BumpAllUpToFour(s, Increments(v));
  }

  /** The counters one by one: when a run moves each of them, by one, modulo 2^64. */
  function Plus(x: u64, moves: bool): int {
    if moves then (x + 1) % 0x1_0000_0000_0000_0000 else x
  }

  lemma RecordMoves(s: Stats, v: Verdict)
    ensures var t := Record(s, v);
            && t.seen == Plus(s.seen, true)
            && t.passed == Plus(s.passed, v.Pass?)
            && t.ok == Plus(s.ok, v.Done? || v.DoneThenBad? || v.DoneThenFail?)
            && t.fail == Plus(s.fail, v.Fail? || v.CipherFailed? || v.DoneThenFail?)
            && t.malformed == Plus(s.malformed, v.Bad? || v.CipherFailed? || v.DoneThenBad?)
            && t.badEth == Plus(s.badEth, v == Bad(BadEth))
            && t.badIp == Plus(s.badIp, v == Bad(BadIp))
            && t.badUdp == Plus(s.badUdp, v == Bad(BadUdp))
            && t.badMagic == Plus(s.badMagic, v == Bad(BadMagic))
            && t.badLength == Plus(s.badLength, v == Bad(BadLength) || v.DoneThenBad?)
            && t.badAlignment == Plus(s.badAlignment, v == Bad(BadAlignment))
            && t.noCtx == Plus(s.noCtx, v == Bad(NoCtx))
  {
    NextIsPlus();
    hide Next, Plus;
  }

  lemma NextIsPlus()
    ensures forall x: u64 {:trigger Next(x)} :: Next(x) == Plus(x, true)
    ensures forall x: u64 {:trigger Plus(x, false)} :: Plus(x, false) == x
  {
  }

  // ----- Balances -----------------------------------------------------------------------------

  /** Equal modulo 2^64, the width of the counters: `k` wrap-arounds apart. */
  ghost predicate Congruent(a: int, b: int) {
    exists k: int :: Wraps(a, b, k)
  }

  predicate Wraps(a: int, b: int, k: int) {
    a - b == U64 * k
  }

  lemma CongruentBy(a: int, b: int, k: int)
    requires a == b + U64 * k
    ensures Congruent(a, b)
  {
    assert Wraps(a, b, k);
  }

  /** Only the difference matters. */
  lemma CongruentShift(a: int, b: int, c: int, d: int)
    requires Congruent(a, b) && a - b == c - d
    ensures Congruent(c, d)
  {
    var k :| Wraps(a, b, k);
    CongruentBy(c, d, k);
  }

  lemma CongruentChain(a: int, b: int, w: int, e: int, t: int)
    requires Congruent(a, b + w) && Congruent(b, e) && t == e + w
    ensures Congruent(a, t)
  {
    var j :| Wraps(a, b + w, j);
    var k :| Wraps(b, e, k);
    CongruentBy(a, t, j + k);
  }

  /** Packets seen and not yet counted in an outcome. */
  function Flow(s: Stats): int {
    s.seen - s.passed - s.ok - s.fail - s.malformed
  }

  function ReasonTotal(s: Stats): int {
    s.badEth + s.badIp + s.badUdp + s.badMagic + s.badLength + s.badAlignment + s.noCtx
  }

  /** Malformed packets not yet counted under a reason. */
  function Unexplained(s: Stats): int {
    s.malformed - ReasonTotal(s)
  }

  function FlowWeight(c: Counter): int {
    match c
    case Seen => 1
    case Passed | CryptoOk | CryptoFail | Malformed => -1
    case _ => 0
  }

  function UnexplainedWeight(c: Counter): int {
    match c
    case Malformed => 1
    case Seen | Passed | CryptoOk | CryptoFail => 0
    case _ => -1
  }

  /** One increment moves the balances by its weights. */
  lemma BumpMovesBalances(s: Stats, c: Counter)
    ensures Congruent(Flow(Bump(s, c)), Flow(s) + FlowWeight(c))
    ensures Congruent(Unexplained(Bump(s, c)), Unexplained(s) + UnexplainedWeight(c))
  {
    var wrapped := if Count(s, c) == U64 - 1 then 1 else 0;
    CongruentBy(Flow(Bump(s, c)), Flow(s) + FlowWeight(c), 0 - wrapped * FlowWeight(c));
    CongruentBy(Unexplained(Bump(s, c)), Unexplained(s) + UnexplainedWeight(c), 0 - wrapped * UnexplainedWeight(c));
  }

  function Weigh(cs: seq<Counter>, w: Counter -> int): int
    decreases cs
  {
    if cs == [] then 0 else w(cs[0]) + Weigh(cs[1..], w)
  }

  /** If one increment moves a balance by its weight, a list of them does by the sum. */
  lemma {:induction false} BumpAllMoves(s: Stats, cs: seq<Counter>, balance: Stats -> int, w: Counter -> int)
    requires forall t: Stats, c: Counter {:trigger Bump(t, c)} :: Congruent(balance(Bump(t, c)), balance(t) + w(c))
    ensures Congruent(balance(BumpAll(s, cs)), balance(s) + Weigh(cs, w))
    decreases |cs|
  {
    hide Bump;
    if cs != [] {
      var t := Bump(s, cs[0]);
      BumpAllMoves(t, cs[1..], balance, w);
      CongruentShift(balance(t), balance(s) + w(cs[0]), balance(t) + Weigh(cs[1..], w), balance(s) + Weigh(cs, w));
      CongruentChain(balance(BumpAll(s, cs)), balance(t) + Weigh(cs[1..], w), 0, balance(s) + Weigh(cs, w),
                     balance(s) + Weigh(cs, w));
    } else {
      CongruentBy(balance(s), balance(s), 0);
    }
  }

  lemma BumpAllMovesBalances(s: Stats, cs: seq<Counter>)
    ensures Congruent(Flow(BumpAll(s, cs)), Flow(s) + Weigh(cs, FlowWeight))
    ensures Congruent(Unexplained(BumpAll(s, cs)), Unexplained(s) + Weigh(cs, UnexplainedWeight))
  {
    hide Congruent, Bump, Flow, Unexplained, FlowWeight, UnexplainedWeight, BumpAll, Weigh;
    forall t: Stats, c: Counter {:trigger Bump(t, c)}
      ensures Congruent(Flow(Bump(t, c)), Flow(t) + FlowWeight(c))
      ensures Congruent(Unexplained(Bump(t, c)), Unexplained(t) + UnexplainedWeight(c))
    {
      BumpMovesBalances(t, c);
    }
    BumpAllMoves(s, cs, Flow, FlowWeight);
    BumpAllMoves(s, cs, Unexplained, UnexplainedWeight);
  }

  /** The weights of whole outcomes: every outcome balances its `seen`, except that a kfunc failure
      and a failure after `crypto_ok` are counted once more; only a kfunc failure is malformed
      without a reason. */
  lemma OutcomeWeights(v: Verdict)
    ensures Weigh(Increments(v), FlowWeight) == if KfuncFailed(v) || FailedAfterOk(v) then -1 else 0
    ensures Weigh(Increments(v), UnexplainedWeight) == if KfuncFailed(v) then 1 else 0
  {
    var cs := Increments(v);
    WeighUpToFour(cs, FlowWeight);
    WeighUpToFour(cs, UnexplainedWeight);
  }

  lemma WeighUpToFour(cs: seq<Counter>, w: Counter -> int)
    requires 2 <= |cs| <= 4
    ensures Weigh(cs, w) == w(cs[0]) + w(cs[1])
                            + (if |cs| > 2 then w(cs[2]) else 0) + (if |cs| > 3 then w(cs[3]) else 0)
  {
    var r1 := cs[1..];
    var r2 := r1[1..];
    assert Weigh(cs, w) == w(cs[0]) + w(cs[1]) + Weigh(r2, w);
    if r2 != [] {
      var r3 := r2[1..];
      assert Weigh(r2, w) == w(cs[2]) + Weigh(r3, w);
      assert r3 != [] ==> r3[1..] == [];
    }
  }

  /** A kfunc failure is counted as malformed and as failed. */
  predicate KfuncFailed(v: Verdict) {
    v.CipherFailed?
  }

  /** A failure found after `crypto_ok` is counted a second time. */
  predicate FailedAfterOk(v: Verdict) {
    v.DoneThenBad? || v.DoneThenFail?
  }

  const ZERO := Stats(0, 0, 0, 0, 0, 0, 0, 0, 0, 0, 0, 0)

  lemma ZeroFlow()
    ensures Flow(ZERO) == 0
  {
  }

  lemma ZeroUnexplained()
    ensures Unexplained(ZERO) == 0
  {
  }

  /** The map value of one CPU; hooks hold a possibly null pointer to it. */
  class CpuStats {
    var s: Stats

    constructor ()
      ensures s == ZERO
    {
      s := ZERO;
    }
  }

  /** `stat_inc` behind the callers' null test. */
  method StatInc(stats: CpuStats?, c: Counter)
    modifies stats
    ensures stats != null ==> stats.s == Bump(old(stats.s), c)
  {
    if stats != null {
      stats.s := Bump(stats.s, c);
    }
  }

  /** `stat_bad` / `stat_reason`. */
  method StatBad(stats: CpuStats?, reason: Counter)
    modifies stats
    ensures stats != null ==> stats.s == Bump(Bump(old(stats.s), Malformed), reason)
  {
    if stats == null {
      return;
    }
    StatInc(stats, Malformed);
    StatInc(stats, reason);
  }
}
