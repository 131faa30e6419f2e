/** The counters under concurrency: hooks running on any number of CPUs, interleaved at each atomic
    increment, and the totals that user space prints. */
module ConcurrentStats {
  import opened Bytes
  import opened Layout
  import opened Kernel
  import opened Stats
  import opened FramedSpec

  // ----- The machine --------------------------------------------------------------------------

  /** A run of a hook: its CPU, how it is going to end, and how many of its increments it has made. */
  datatype Flight = Flight(cpu: nat, verdict: Verdict, done: nat) {
    /** The increments still to be made. */
    function Left(): seq<Counter> {
      if done <= |Increments(verdict)| then Increments(verdict)[done..] else []
    }
  }

  datatype State = State(cpus: seq<Stats>, flights: seq<Flight>)

  /** The outcomes of the framed hooks. */
  predicate IsFramed(v: Verdict) {
    v.Pass? || v.Fail? || v.Bad? || v.Done?
  }

  lemma FramedHooksAreFramed(f: bytes, config: Option<CryptoConfig>, slot: Slot, o: Oracle)
    ensures IsFramed(TcRun(f, config, slot, o).verdict) && IsFramed(XdpRun(f, config, slot, o).verdict)
  {
    hide TcAdmitted, XdpAdmitted, RunCipher;
    AdmissionIsFramed(f, config);
  }

  lemma AdmissionIsFramed(f: bytes, config: Option<CryptoConfig>)
    ensures TcAdmitted(f, config).Stop? ==> IsFramed(TcAdmitted(f, config).verdict)
    ensures XdpAdmitted(f, config).Stop? ==> IsFramed(XdpAdmitted(f, config).verdict)
  {
    hide Get16, Get32;
  }

  /** A packet arrives at a hook on some CPU, or some run makes its next increment. */
  datatype Occurrence = Arrive(cpu: nat, verdict: Verdict) | Increment(flight: nat)

  /** Events that cannot happen leave the state alone. */
  function Next(s: State, e: Occurrence): State {
    match e
    case Arrive(cpu, v) =>
      if cpu >= |s.cpus| then s else s.(flights := s.flights + [Flight(cpu, v, 0)])
    case Increment(i) =>
      if i >= |s.flights| || s.flights[i].Left() == [] || s.flights[i].cpu >= |s.cpus| then s else
      var Flight(cpu, v, done) := s.flights[i];
      State(s.cpus[cpu := Bump(s.cpus[cpu], Increments(v)[done])], s.flights[i := Flight(cpu, v, done + 1)])
  }

  /** The state after any interleaving, from zeroed counters on `n` CPUs. */
  function After(n: nat, events: seq<Occurrence>): State
    decreases |events|
  {
    if events == [] then State(seq(n, _ => ZERO), [])
    else Next(After(n, events[..|events| - 1]), events[|events| - 1])
  }

  // ----- Sums ---------------------------------------------------------------------------------

  function SumCpus(cpus: seq<Stats>, balance: Stats -> int): int
    decreases |cpus|
  {
    if cpus == [] then 0 else SumCpus(cpus[..|cpus| - 1], balance) + balance(cpus[|cpus| - 1])
  }

  /** What a run still has to add to a balance, less what it adds in all. */
  function Owed(f: Flight, w: Counter -> int): int {
    Weigh(f.Left(), w) - Weigh(Increments(f.verdict), w)
  }

  function SumOwed(flights: seq<Flight>, w: Counter -> int): int
    decreases |flights|
  {
    if flights == [] then 0 else SumOwed(flights[..|flights| - 1], w) + Owed(flights[|flights| - 1], w)
  }

  lemma {:induction false} SumCpusUpdate(cpus: seq<Stats>, i: nat, s: Stats, balance: Stats -> int)
    requires i < |cpus|
    ensures SumCpus(cpus[i := s], balance) == SumCpus(cpus, balance) - balance(cpus[i]) + balance(s)
    decreases |cpus|
  {
    var k := |cpus| - 1;
    if i == k {
      assert cpus[i := s][..k] == cpus[..k];
    } else {
      assert cpus[i := s][..k] == cpus[..k][i := s];
      SumCpusUpdate(cpus[..k], i, s, balance);
    }
  }

  lemma {:induction false} SumOwedUpdate(flights: seq<Flight>, i: nat, t: Flight, w: Counter -> int)
    requires i < |flights|
    ensures SumOwed(flights[i := t], w) == SumOwed(flights, w) - Owed(flights[i], w) + Owed(t, w)
    decreases |flights|
  {
    hide Owed;
    var k := |flights| - 1;
    if i == k {
      assert flights[i := t][..k] == flights[..k];
    } else {
      assert flights[i := t][..k] == flights[..k][i := t];
      SumOwedUpdate(flights[..k], i, t, w);
    }
  }

  // ----- The invariant ------------------------------------------------------------------------

  /** What the counters say and what the runs owe cancel. */
  ghost predicate Balanced(s: State, balance: Stats -> int, w: Counter -> int) {
    Congruent(SumCpus(s.cpus, balance) + SumOwed(s.flights, w), 0)
  }

  /** Every step keeps the balance, for any balance that increments move by their weights. */
  lemma StepKeepsBalance(s: State, e: Occurrence, balance: Stats -> int, w: Counter -> int)
    requires forall t: Stats, c: Counter {:trigger Bump(t, c)} :: Congruent(balance(Bump(t, c)), balance(t) + w(c))
    requires Balanced(s, balance, w)
    ensures Balanced(Next(s, e), balance, w)
  {
    hide Bump, Increments, Congruent, Weigh;
    match e
    case Arrive(cpu, v) =>
      if cpu < |s.cpus| {
        ArrivalOwesNothing(s.flights, cpu, v, w);
      }
    case Increment(i) =>
      if i < |s.flights| && s.flights[i].Left() != [] && s.flights[i].cpu < |s.cpus| {
        hide Balanced;
        IncrementKeepsBalance(s, i, balance, w);
      }
  }

  lemma IncrementKeepsBalance(s: State, i: nat, balance: Stats -> int, w: Counter -> int)
    requires i < |s.flights| && s.flights[i].Left() != [] && s.flights[i].cpu < |s.cpus|
    requires forall t: Stats, c: Counter {:trigger Bump(t, c)} :: Congruent(balance(Bump(t, c)), balance(t) + w(c))
    requires Balanced(s, balance, w)
    ensures Balanced(Next(s, Increment(i)), balance, w)
  {
    hide Bump, Increments, Congruent, Weigh, SumCpus, SumOwed;
    var Flight(cpu, v, done) := s.flights[i];
    var c := Increments(v)[done];
    var t := Bump(s.cpus[cpu], c);
    SumCpusUpdate(s.cpus, cpu, t, balance);
    SumOwedUpdate(s.flights, i, Flight(cpu, v, done + 1), w);
    OneLess(s.flights[i], w);
    StepCancels(SumCpus(s.cpus, balance), SumOwed(s.flights, w), balance(s.cpus[cpu]), balance(t), w(c));
  }

  lemma ArrivalOwesNothing(flights: seq<Flight>, cpu: nat, v: Verdict, w: Counter -> int)
    ensures SumOwed(flights + [Flight(cpu, v, 0)], w) == SumOwed(flights, w)
  {
    hide Increments, Weigh;
    assert (flights + [Flight(cpu, v, 0)])[..|flights|] == flights;
    assert Flight(cpu, v, 0).Left() == Increments(v);
  }

  lemma OneLess(f: Flight, w: Counter -> int)
    requires f.Left() != []
    ensures Owed(f, w) == w(Increments(f.verdict)[f.done]) + Owed(f.(done := f.done + 1), w)
  {
    hide Increments;
    assert f.(done := f.done + 1).Left() == f.Left()[1..];
  }

  lemma StepCancels(cpus: int, left: int, was: int, now: int, weight: int)
    requires Congruent(cpus + left, 0) && Congruent(now, was + weight)
    ensures Congruent(cpus - was + now + (left - weight), 0)
  {
    CongruentShift(now, was + weight, cpus - was + now + (left - weight), cpus + left);
    CongruentChain(cpus - was + now + (left - weight), cpus + left, 0, 0, 0);
  }

  lemma {:induction false} ZeroSum(n: nat, balance: Stats -> int)
    requires balance(ZERO) == 0
    ensures SumCpus(seq(n, _ => ZERO), balance) == 0
  {
    if n > 0 {
      assert seq(n, _ => ZERO)[..n - 1] == seq(n - 1, _ => ZERO);
      ZeroSum(n - 1, balance);
    }
  }

  lemma {:induction false} AlwaysBalanced(n: nat, events: seq<Occurrence>, balance: Stats -> int, w: Counter -> int)
    requires forall t: Stats, c: Counter {:trigger Bump(t, c)} :: Congruent(balance(Bump(t, c)), balance(t) + w(c))
    requires balance(ZERO) == 0
    ensures Balanced(After(n, events), balance, w)
    decreases |events|
  {
    if events == [] {
      ZeroSum(n, balance);
      CongruentBy(SumCpus(After(n, []).cpus, balance), 0, 0);
    } else {
      hide Next, Balanced, Congruent, Bump, Increments;
      var rest := events[..|events| - 1];
      AlwaysBalanced(n, rest, balance, w);
      StepKeepsBalance(After(n, rest), events[|events| - 1], balance, w);
    }
  }

  // ----- What the balances mean ---------------------------------------------------------------

  /** Counted as seen, outcome not counted yet. */
  predicate AwaitsOutcome(f: Flight) {
    f.done == 1
  }

  /** The second outcome counted: a kfunc failure is malformed and failed, a failure after
      `crypto_ok` comes on top of it. */
  predicate CountedTwice(f: Flight) {
    (KfuncFailed(f.verdict) || FailedAfterOk(f.verdict)) && f.done >= 3
  }

  /** Between the two increments of `stat_reason` or `stat_bad`. */
  predicate AwaitsReason(f: Flight) {
    (f.verdict.Bad? && f.done == 2) || (f.verdict.DoneThenBad? && f.done == 3)
  }

  /** Counted as malformed, with no reason to come. */
  predicate NeverExplained(f: Flight) {
    KfuncFailed(f.verdict) && f.done >= 2
  }

  function CountFlights(flights: seq<Flight>, p: Flight -> bool): nat
    decreases |flights|
  {
    if flights == [] then 0
    else CountFlights(flights[..|flights| - 1], p) + if p(flights[|flights| - 1]) then 1 else 0
  }

  lemma LeftWeighs(f: Flight, w: Counter -> int)
    ensures var cs, d := Increments(f.verdict), f.done;
            && 2 <= |cs| <= 4
            && Weigh(cs, w) == Nth(cs, 0, w) + Nth(cs, 1, w) + Nth(cs, 2, w) + Nth(cs, 3, w)
            && Weigh(f.Left(), w) == (if d == 0 then Nth(cs, 0, w) else 0) + (if d <= 1 then Nth(cs, 1, w) else 0)
                                     + (if d <= 2 then Nth(cs, 2, w) else 0) + (if d <= 3 then Nth(cs, 3, w) else 0)
  {
    hide Increments;
    IncrementsFew(f.verdict);
    var cs, left := Increments(f.verdict), f.Left();
    WeighUpToFour(cs, w);
    if |left| >= 2 {
      WeighUpToFour(left, w);
    } else if |left| == 1 {
      assert left[1..] == [];
    }
  }

  lemma IncrementsFew(v: Verdict)
    ensures 2 <= |Increments(v)| <= 4
  {
  }

  function Nth(cs: seq<Counter>, i: nat, w: Counter -> int): int {
    if i < |cs| then w(cs[i]) else 0
  }

  /** What a run owes is what it awaits, less what it has counted twice. */
  lemma FlightOwes(f: Flight)
    ensures Owed(f, FlowWeight) == (if CountedTwice(f) then 1 else 0) - (if AwaitsOutcome(f) then 1 else 0)
    ensures Owed(f, UnexplainedWeight) == 0 - (if AwaitsReason(f) then 1 else 0) - (if NeverExplained(f) then 1 else 0)
  {
    hide Weigh;
    LeftWeighs(f, FlowWeight);
    LeftWeighs(f, UnexplainedWeight);
  }

  lemma {:induction false} FlightsOwe(flights: seq<Flight>)
    ensures SumOwed(flights, FlowWeight) == CountFlights(flights, CountedTwice) - CountFlights(flights, AwaitsOutcome)
    ensures SumOwed(flights, UnexplainedWeight)
         == 0 - CountFlights(flights, AwaitsReason) - CountFlights(flights, NeverExplained)
    decreases |flights|
  {
    if flights != [] {
      hide Owed, AwaitsOutcome, AwaitsReason, CountedTwice, NeverExplained;
      FlightsOwe(flights[..|flights| - 1]);
      FlightOwes(flights[|flights| - 1]);
    }
  }

  /** Conservation in every reachable state of any hooks: over all CPUs, the packets seen less the
      outcomes counted are the runs between the two, less the runs that have counted a second
      outcome; the malformed packets without a reason are the runs about to count one and the kfunc
      failures. */
  lemma Conservation(n: nat, events: seq<Occurrence>)
    ensures var s := After(n, events);
            && Congruent(SumCpus(s.cpus, Flow),
                         CountFlights(s.flights, AwaitsOutcome) - CountFlights(s.flights, CountedTwice))
            && Congruent(SumCpus(s.cpus, Unexplained),
                         CountFlights(s.flights, AwaitsReason) + CountFlights(s.flights, NeverExplained))
  {
    hide *;
    FlowBalanced(n, events);
    UnexplainedBalanced(n, events);
    var s := After(n, events);
    FlightsOwe(s.flights);
    BalanceMeans(s, Flow, FlowWeight,
                 CountFlights(s.flights, AwaitsOutcome) - CountFlights(s.flights, CountedTwice));
    BalanceMeans(s, Unexplained, UnexplainedWeight,
                 CountFlights(s.flights, AwaitsReason) + CountFlights(s.flights, NeverExplained));
  }

  /** All packets that arrive end in a framed outcome. */
  predicate OnlyFramed(events: seq<Occurrence>) {
    forall e :: e in events && e.Arrive? ==> IsFramed(e.verdict)
  }

  lemma {:induction false} FlightsFramed(n: nat, events: seq<Occurrence>)
    requires OnlyFramed(events)
    ensures forall f :: f in After(n, events).flights ==> IsFramed(f.verdict)
    decreases |events|
  {
    hide Bump, Increments, IsFramed;
    if events != [] {
      var e := events[|events| - 1];
      assert e in events;
      FlightsFramed(n, events[..|events| - 1]);
    }
  }

  lemma {:induction false} NoneTwice(flights: seq<Flight>)
    requires forall f :: f in flights ==> IsFramed(f.verdict)
    ensures CountFlights(flights, CountedTwice) == 0 && CountFlights(flights, NeverExplained) == 0
    decreases |flights|
  {
    if flights != [] {
      NoneTwice(flights[..|flights| - 1]);
    }
  }

  /** For the framed hooks: the packets seen less those with an outcome are the runs between the
      two, and the malformed packets without a reason are the runs between the two increments of
      `stat_reason`. */
  lemma FramedConservation(n: nat, events: seq<Occurrence>)
    requires OnlyFramed(events)
    ensures var s := After(n, events);
            && Congruent(SumCpus(s.cpus, Flow), CountFlights(s.flights, AwaitsOutcome))
            && Congruent(SumCpus(s.cpus, Unexplained), CountFlights(s.flights, AwaitsReason))
  {
    hide *;
    FlightsFramed(n, events);
    NoneTwice(After(n, events).flights);
    Conservation(n, events);
  }

  lemma BalanceMeans(s: State, balance: Stats -> int, w: Counter -> int, k: int)
    requires Balanced(s, balance, w) && SumOwed(s.flights, w) == 0 - k
    ensures Congruent(SumCpus(s.cpus, balance), k)
  {
    CongruentShift(SumCpus(s.cpus, balance) + SumOwed(s.flights, w), 0, SumCpus(s.cpus, balance), k);
  }

  lemma FlowBalanced(n: nat, events: seq<Occurrence>)
    ensures Balanced(After(n, events), Flow, FlowWeight)
  {
    hide *;
    ZeroFlow();
    forall t: Stats, c: Counter {:trigger Bump(t, c)}
      ensures Congruent(Flow(Bump(t, c)), Flow(t) + FlowWeight(c))
    {
      BumpMovesBalances(t, c);
    }
    AlwaysBalanced(n, events, Flow, FlowWeight);
  }

  lemma UnexplainedBalanced(n: nat, events: seq<Occurrence>)
    ensures Balanced(After(n, events), Unexplained, UnexplainedWeight)
  {
    hide *;
    ZeroUnexplained();
    forall t: Stats, c: Counter {:trigger Bump(t, c)}
      ensures Congruent(Unexplained(Bump(t, c)), Unexplained(t) + UnexplainedWeight(c))
    {
      BumpMovesBalances(t, c);
    }
    AlwaysBalanced(n, events, Unexplained, UnexplainedWeight);
  }

  // ----- What is printed ----------------------------------------------------------------------

  /** `__u64` addition. */
  function Add64(a: u64, b: u64): u64 {
    if a + b < U64 then a + b else a + b - U64
  }

  function AddStats(a: Stats, b: Stats): Stats {
    Stats(Add64(a.seen, b.seen), Add64(a.passed, b.passed), Add64(a.ok, b.ok), Add64(a.fail, b.fail),
          Add64(a.malformed, b.malformed), Add64(a.badEth, b.badEth), Add64(a.badIp, b.badIp),
          Add64(a.badUdp, b.badUdp), Add64(a.badMagic, b.badMagic), Add64(a.badLength, b.badLength),
          Add64(a.badAlignment, b.badAlignment), Add64(a.noCtx, b.noCtx))
  }

  function Carry(a: u64, b: u64): int {
    if a + b < U64 then 0 else 1
  }

  lemma Add64Carry(a: u64, b: u64)
    ensures Add64(a, b) == a + b - U64 * Carry(a, b)
  {
  }

  lemma AddStatsFlow(a: Stats, b: Stats)
    ensures Congruent(Flow(AddStats(a, b)), Flow(a) + Flow(b))
  {
    hide Congruent, Add64, Carry;
    Add64Carry(a.seen, b.seen);
    Add64Carry(a.passed, b.passed);
    Add64Carry(a.ok, b.ok);
    Add64Carry(a.fail, b.fail);
    Add64Carry(a.malformed, b.malformed);
    var k := Carry(a.passed, b.passed) + Carry(a.ok, b.ok) + Carry(a.fail, b.fail)
             + Carry(a.malformed, b.malformed) - Carry(a.seen, b.seen);
    CongruentBy(Flow(AddStats(a, b)), Flow(a) + Flow(b), k);
  }

  lemma AddStatsUnexplained(a: Stats, b: Stats)
    ensures Congruent(Unexplained(AddStats(a, b)), Unexplained(a) + Unexplained(b))
  {
    hide Congruent, Add64, Carry;
    Add64Carry(a.malformed, b.malformed);
    Add64Carry(a.badEth, b.badEth);
    Add64Carry(a.badIp, b.badIp);
    Add64Carry(a.badUdp, b.badUdp);
    Add64Carry(a.badMagic, b.badMagic);
    Add64Carry(a.badLength, b.badLength);
    Add64Carry(a.badAlignment, b.badAlignment);
    Add64Carry(a.noCtx, b.noCtx);
    var k := Carry(a.badEth, b.badEth) + Carry(a.badIp, b.badIp) + Carry(a.badUdp, b.badUdp)
             + Carry(a.badMagic, b.badMagic) + Carry(a.badLength, b.badLength)
             + Carry(a.badAlignment, b.badAlignment) + Carry(a.noCtx, b.noCtx) - Carry(a.malformed, b.malformed);
    CongruentBy(Unexplained(AddStats(a, b)), Unexplained(a) + Unexplained(b), k);
  }

  function Total(values: seq<Stats>): Stats
    decreases |values|
  {
    if values == [] then ZERO else AddStats(Total(values[..|values| - 1]), values[|values| - 1])
  }

  /** The summation loop of `ebaf_bpf_print_stats`: one total per counter over the CPUs. */
  method SumPerCpu(values: seq<Stats>) returns (total: Stats)
    ensures total == Total(values)
    ensures forall c :: Congruent(Count(total, c), SumCpus(values, s => Count(s, c)))
  {
    hide AddStats;
    total := ZERO;
    for i := 0 to |values|
      invariant total == Total(values[..i])
    {
      assert values[..i + 1][..i] == values[..i];
      total := AddStats(total, values[i]);
    }
    assert values[..|values|] == values;
    forall c
      ensures Congruent(Count(total, c), SumCpus(values, s => Count(s, c)))
    {
      TotalCounts(values, c, s => Count(s, c));
    }
  }

  /** Every printed total is the sum of its counter over the CPUs, modulo the counter width. */
  lemma {:induction false} TotalCounts(values: seq<Stats>, c: Counter, count: Stats -> int)
    requires forall s :: count(s) == Count(s, c)
    ensures Congruent(Count(Total(values), c), SumCpus(values, count))
    decreases |values|
  {
    hide AddStats, Count;
    if values == [] {
      ZeroCounts(c);
      CongruentBy(0, 0, 0);
    } else {
      var rest, last := values[..|values| - 1], values[|values| - 1];
      TotalCounts(rest, c, count);
      AddStatsCounts(Total(rest), last, c);
      hide Congruent;
      CongruentChain(Count(Total(values), c), Count(Total(rest), c), Count(last, c),
                     SumCpus(rest, count), SumCpus(values, count));
    }
  }

  lemma ZeroCounts(c: Counter)
    ensures Count(ZERO, c) == 0
  {
  }

  lemma AddStatsCounts(a: Stats, b: Stats, c: Counter)
    ensures Congruent(Count(AddStats(a, b), c), Count(a, c) + Count(b, c))
  {
    hide Congruent, Add64;
    assert Count(AddStats(a, b), c) == Add64(Count(a, c), Count(b, c));
    Add64Carry(Count(a, c), Count(b, c));
    CongruentBy(Count(AddStats(a, b), c), Count(a, c) + Count(b, c), 0 - Carry(Count(a, c), Count(b, c)));
  }

  lemma {:induction false} TotalBalances(values: seq<Stats>)
    ensures Congruent(Flow(Total(values)), SumCpus(values, Flow))
    ensures Congruent(Unexplained(Total(values)), SumCpus(values, Unexplained))
    decreases |values|
  {
    hide AddStats, Flow, Unexplained;
    if values == [] {
      ZeroFlow();
      ZeroUnexplained();
      CongruentBy(0, 0, 0);
    } else {
      var rest, last := values[..|values| - 1], values[|values| - 1];
      TotalBalances(rest);
      AddStatsFlow(Total(rest), last);
      AddStatsUnexplained(Total(rest), last);
      hide Congruent;
      CongruentChain(Flow(Total(values)), Flow(Total(rest)), Flow(last), SumCpus(rest, Flow), SumCpus(values, Flow));
      CongruentChain(Unexplained(Total(values)), Unexplained(Total(rest)), Unexplained(last),
                     SumCpus(rest, Unexplained), SumCpus(values, Unexplained));
    }
  }

  /** Every run has made all its increments. */
  ghost predicate Quiescent(s: State) {
    forall f :: f in s.flights ==> f.Left() == []
  }

  predicate HadKfuncFailure(f: Flight) {
    KfuncFailed(f.verdict)
  }

  predicate HadLateFailure(f: Flight) {
    FailedAfterOk(f.verdict)
  }

  /** The counter law, with `k` kfunc failures and `p` failures recorded after `crypto_ok`. */
  ghost predicate Accounted(t: Stats, k: int, p: int) {
    && Congruent(t.seen + k + p, t.passed + t.ok + t.fail + t.malformed)
    && Congruent(t.malformed, ReasonTotal(t) + k)
  }

  /** When no run owes an increment the printed totals obey the counter law, whatever hooks ran on
      whatever CPUs and however they interleaved. */
  lemma PrintedTotals(n: nat, events: seq<Occurrence>)
    requires Quiescent(After(n, events))
    ensures var s := After(n, events);
            Accounted(Total(s.cpus), CountFlights(s.flights, HadKfuncFailure), CountFlights(s.flights, HadLateFailure))
  {
    hide *;
    var s := After(n, events);
    Conservation(n, events);
    TotalBalances(s.cpus);
    AtRest(s);
    AccountedFrom(Total(s.cpus), SumCpus(s.cpus, Flow), SumCpus(s.cpus, Unexplained),
                  CountFlights(s.flights, HadKfuncFailure), CountFlights(s.flights, HadLateFailure));
  }

  lemma AccountedFrom(t: Stats, flow: int, unexplained: int, k: int, p: int)
    requires Congruent(Flow(t), flow) && Congruent(flow, 0 - k - p)
    requires Congruent(Unexplained(t), unexplained) && Congruent(unexplained, k)
    ensures Accounted(t, k, p)
  {
    CongruentChain(Flow(t), flow, 0, 0 - k - p, 0 - k - p);
    CongruentChain(Unexplained(t), unexplained, 0, k, k);
    CongruentShift(Flow(t), 0 - k - p, t.seen + k + p, t.passed + t.ok + t.fail + t.malformed);
    CongruentShift(Unexplained(t), k, t.malformed, ReasonTotal(t) + k);
  }

  lemma AtRest(s: State)
    requires Quiescent(s)
    ensures CountFlights(s.flights, AwaitsOutcome) == 0 && CountFlights(s.flights, AwaitsReason) == 0
    ensures CountFlights(s.flights, NeverExplained) == CountFlights(s.flights, HadKfuncFailure)
    ensures CountFlights(s.flights, CountedTwice)
         == CountFlights(s.flights, HadKfuncFailure) + CountFlights(s.flights, HadLateFailure)
  {
    CountsAtRest(s.flights);
  }

  lemma {:induction false} CountsAtRest(flights: seq<Flight>)
    requires forall f :: f in flights ==> f.Left() == []
    ensures CountFlights(flights, AwaitsOutcome) == 0 && CountFlights(flights, AwaitsReason) == 0
    ensures CountFlights(flights, NeverExplained) == CountFlights(flights, HadKfuncFailure)
    ensures CountFlights(flights, CountedTwice)
         == CountFlights(flights, HadKfuncFailure) + CountFlights(flights, HadLateFailure)
    decreases |flights|
  {
    if flights != [] {
      var last := flights[|flights| - 1];
      assert last.Left() == [];
      FlightAtRest(last);
      CountsAtRest(flights[..|flights| - 1]);
      hide AwaitsOutcome, AwaitsReason, NeverExplained, CountedTwice, HadKfuncFailure, HadLateFailure;
    }
  }

  lemma FlightAtRest(f: Flight)
    requires f.Left() == []
    ensures !AwaitsOutcome(f) && !AwaitsReason(f) && (NeverExplained(f) <==> HadKfuncFailure(f))
    ensures CountedTwice(f) <==> HadKfuncFailure(f) || HadLateFailure(f)
    ensures !(HadKfuncFailure(f) && HadLateFailure(f))
  {
    assert f.done >= |Increments(f.verdict)|;
  }

  /** Every packet seen has one outcome, and every malformed one has one reason. */
  ghost predicate Partitioned(t: Stats) {
    && Congruent(t.seen, t.passed + t.ok + t.fail + t.malformed)
    && Congruent(t.malformed, ReasonTotal(t))
  }

  /** When no run of a framed hook owes an increment the printed totals partition the packets. */
  lemma PrintedTotalsPartition(n: nat, events: seq<Occurrence>)
    requires OnlyFramed(events) && Quiescent(After(n, events))
    ensures Partitioned(Total(After(n, events).cpus))
  {
    hide *;
    var s := After(n, events);
    PrintedTotals(n, events);
    AtRest(s);
    FlightsFramed(n, events);
    NoneTwice(s.flights);
    NoFailures(Total(s.cpus));
  }

  lemma NoFailures(t: Stats)
    requires Accounted(t, 0, 0)
    ensures Partitioned(t)
  {
  }
}
