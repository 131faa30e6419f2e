/** `create_crypto_ctx`: the key-length gate, and who owns a context while calls run concurrently. */
module CryptoCtx {
  import opened Bytes
  import opened Layout

  // ----- One call -----------------------------------------------------------------------------

  /** `struct bpf_crypto_params`, as far as it is filled. */
  datatype Params = Params(family: string, algo: string, key: bytes, keyLen: u32)

  datatype Gate = Refused(rc: int) | Granted(params: Params)

  /** AES with 16 key bytes, or ChaCha20 with 32. */
  predicate Usable(c: CryptoConfig) {
    (c.algo == 1 && c.keyLen == 16) || (c.algo == 2 && c.keyLen == 32)
  }

  /** The checks before a context is created. */
  function GateOf(config: Option<CryptoConfig>): (g: Gate)
    ensures g.Granted? <==> config.Some? && Usable(config.value)
    ensures g.Granted? ==>
              && g.params.family == "skcipher" && g.params.keyLen == |g.params.key| && g.params.key <= config.value.key
              && (config.value.algo == 1 ==> g.params.algo == "cbc(aes)" && |g.params.key| == 16)
              && (config.value.algo == 2 ==> g.params.algo == "chacha20" && |g.params.key| == 32)
  {
    if config.None? then Refused(-1) else
    var c := config.value;
    if c.algo == ALGO_CBC_AES && c.keyLen != AES128_KEY_BYTES then Refused(-2) else
    if c.algo == ALGO_CHACHA20 && c.keyLen != CHACHA20_KEY_BYTES then Refused(-2) else
    if c.algo != ALGO_CBC_AES && c.algo != ALGO_CHACHA20 then Refused(-2) else
    if c.algo == ALGO_CHACHA20 then Granted(Params("skcipher", "chacha20", c.key[..CHACHA20_KEY_BYTES], c.keyLen))
    else Granted(Params("skcipher", "cbc(aes)", c.key[..AES128_KEY_BYTES], c.keyLen))
  }

  /** A context: its identity and what it was made from. */
  datatype Ctx = Ctx(id: nat, params: Params)

  /** What a call learns from the kernel: whether the context is created, the error it reports if
      not, and whether the slot is found. */
  datatype CallOracle = CallOracle(created: bool, err: int, slotFound: bool)

  /** The contexts of the kernel and the map slot: `made` of them have been created so far. */
  datatype Table = Table(slot: Option<Ctx>, made: nat, released: seq<Ctx>)

  /** One call on its own: the table it leaves and its return code. */
  function CallAlone(t: Table, config: Option<CryptoConfig>, o: CallOracle): (Table, int) {
    match GateOf(config)
    case Refused(rc) => (t, rc)
    case Granted(params) =>
      if !o.created then (t, if o.err != 0 then o.err else -3) else
      var c := Ctx(t.made, params);
      if !o.slotFound then (t.(made := t.made + 1, released := t.released + [c]), -4) else
      (Table(Some(c), t.made + 1, if t.slot.Some? then t.released + [t.slot.value] else t.released), 0)
  }

  /** The kernel's side, updated in place. */
  class Contexts {
    var table: Table

    constructor ()
      ensures table == Table(None, 0, [])
    {
      table := Table(None, 0, []);
    }

    /** `bpf_crypto_ctx_create`. */
    method Create(params: Params, ok: bool) returns (c: Option<Ctx>)
      modifies this
      ensures c == if ok then Some(Ctx(old(table.made), params)) else None
      ensures table == if ok then old(table).(made := old(table.made) + 1) else old(table)
    {
      if !ok {
        return None;
      }
      c := Some(Ctx(table.made, params));
      table := table.(made := table.made + 1);
    }

    /** `bpf_kptr_xchg`. */
    method Exchange(c: Ctx) returns (was: Option<Ctx>)
      modifies this
      ensures was == old(table.slot) && table == old(table).(slot := Some(c))
    {
      was := table.slot;
      table := table.(slot := Some(c));
    }

    /** `bpf_crypto_ctx_release`. */
    method Release(c: Ctx)
      modifies this
      ensures table == old(table).(released := old(table.released) + [c])
    {
      table := table.(released := table.released + [c]);
    }

    /** `create_crypto_ctx`, undisturbed. */
    method CreateCryptoCtx(config: Option<CryptoConfig>, o: CallOracle) returns (rc: int)
      modifies this
      ensures (table, rc) == CallAlone(old(table), config, o)
    {
      if config.None? {
        return -1;
      }
      var c := config.value;
      if c.algo == ALGO_CBC_AES && c.keyLen != AES128_KEY_BYTES {
        return -2;
      }
      if c.algo == ALGO_CHACHA20 && c.keyLen != CHACHA20_KEY_BYTES {
        return -2;
      }
      if c.algo != ALGO_CBC_AES && c.algo != ALGO_CHACHA20 {
        return -2;
      }
      var params;
      if c.algo == ALGO_CHACHA20 {
        params := Params("skcipher", "chacha20", c.key[..CHACHA20_KEY_BYTES], c.keyLen);
      } else {
        params := Params("skcipher", "cbc(aes)", c.key[..AES128_KEY_BYTES], c.keyLen);
      }
      var created := Create(params, o.created);
      if created.None? {
        return if o.err != 0 then o.err else -3;
      }
      if !o.slotFound {
        Release(created.value);
        return -4;
      }
      var was := Exchange(created.value);
      if was.Some? {
        Release(was.value);
      }
      return 0;
    }
  }

  /** A call returns zero exactly when it leaves a context made from the configuration in the slot;
      it has then released the former one, if any. Otherwise the slot is as it was, and the context
      it created, if it created one, is the one it has released. */
  lemma CallAloneMeans(t: Table, config: Option<CryptoConfig>, o: CallOracle)
    ensures var (t', rc) := CallAlone(t, config, o);
            && (rc == 0 <==> t'.slot == Some(Ctx(t.made, GateParams(config))) && t'.made == t.made + 1
                             && GateOf(config).Granted? && o.slotFound)
            && (rc == 0 ==> t'.released == t.released + if t.slot.Some? then [t.slot.value] else [])
            && (rc != 0 ==> t'.slot == t.slot && (t' == t || (t'.made == t.made + 1
                             && t'.released == t.released + [Ctx(t.made, GateParams(config))])))
            && (rc == -2 && o.err != -2 <==> config.Some? && GateOf(config).Refused? && o.err != -2)
  {
  }

  /** A context that the kernel was asked to make with these parameters. */
  predicate MadeFor(x: Option<Ctx>, algo: string, key: bytes) {
    x.Some? && |key| <= 32 && x.value.params == Params("skcipher", algo, key, |key|)
  }

  /** What each return code means, and which cipher a context is made for: nothing is asked of the
      kernel without a usable configuration; AES-CBC takes the first 16 key bytes and ChaCha20 all
      32. */
  lemma CallCodes(t: Table, config: Option<CryptoConfig>, o: CallOracle)
    ensures var (t', rc) := CallAlone(t, config, o);
            && (config.None? ==> t' == t && rc == -1)
            && (config.Some? && !Usable(config.value) ==> t' == t && rc == -2)
            && (config.Some? && Usable(config.value) ==>
                  && (rc == 0 <==> o.created && o.slotFound)
                  && (!o.created ==> t' == t && rc == if o.err != 0 then o.err else -3)
                  && (o.created && !o.slotFound ==> rc == -4 && t'.slot == t.slot))
            && (rc == 0 && config.Some? && config.value.algo == 1 ==>
                  MadeFor(t'.slot, "cbc(aes)", config.value.key[..16]))
            && (rc == 0 && config.Some? && config.value.algo == 2 ==>
                  MadeFor(t'.slot, "chacha20", config.value.key[..32]))
            && (rc == 0 ==> config.Some? && Usable(config.value))
            && (o.err != -2 ==> (rc == -2 <==> config.Some? && !Usable(config.value)))
  {
  }

  function GateParams(config: Option<CryptoConfig>): Params {
    match GateOf(config)
    case Granted(params) => params
    case Refused(_) => Params("", "", [], 0)
  }

  // ----- Calls in parallel --------------------------------------------------------------------

  /** Where a call stands, and the context it owns there. */
  datatype Call =
    | Starting(config: Option<CryptoConfig>)
    | Holding(ctx: Ctx)
    | Dropping(ctx: Ctx)
    | Exchanged(was: Option<Ctx>)
    | Ended(rc: int)

  /** `exchanges` records the contexts put into the slot, oldest first. */
  datatype State = State(table: Table, calls: seq<Call>, exchanges: seq<Ctx>)

  /** A new call begins, or a call makes its next kernel call. */
  datatype Occurrence = Begin(config: Option<CryptoConfig>) | Advance(call: nat, oracle: CallOracle)

  function Next(s: State, e: Occurrence): State {
    match e
    case Begin(config) => s.(calls := s.calls + [Starting(config)])
    case Advance(i, o) => if i < |s.calls| then Step(s, i, o) else s
  }

  function Step(s: State, i: nat, o: CallOracle): State
    requires i < |s.calls|
  {
    var t := s.table;
    match s.calls[i]
    case Starting(config) =>
      (match GateOf(config)
       case Refused(rc) => s.(calls := s.calls[i := Ended(rc)])
       case Granted(params) =>
         if !o.created then s.(calls := s.calls[i := Ended(if o.err != 0 then o.err else -3)])
         else s.(table := t.(made := t.made + 1), calls := s.calls[i := Holding(Ctx(t.made, params))]))
    case Holding(c) =>
      if !o.slotFound then s.(calls := s.calls[i := Dropping(c)])
      else State(t.(slot := Some(c)), s.calls[i := Exchanged(t.slot)], s.exchanges + [c])
    case Dropping(c) =>
      s.(table := t.(released := t.released + [c]), calls := s.calls[i := Ended(-4)])
    case Exchanged(was) =>
      if was.None? then s.(calls := s.calls[i := Ended(0)])
      else s.(table := t.(released := t.released + [was.value]), calls := s.calls[i := Ended(0)])
    case Ended(_) => s
  }

  /** The state after any interleaving, from an empty slot. */
  function After(events: seq<Occurrence>): State
    decreases |events|
  {
    if events == [] then State(Table(None, 0, []), [], [])
    else Next(After(events[..|events| - 1]), events[|events| - 1])
  }

  // ----- Ownership ----------------------------------------------------------------------------

  /** The context a call owns, if any. */
  function Owned(c: Call): Option<Ctx> {
    match c
    case Holding(x) => Some(x)
    case Dropping(x) => Some(x)
    case Exchanged(was) => was
    case _ => None
  }

  function Is(x: Option<Ctx>, id: nat): nat {
    if x.Some? && x.value.id == id then 1 else 0
  }

  function One(x: Option<Ctx>): nat {
    if x.Some? then 1 else 0
  }

  /** How many calls own context `id`. */
  function Owners(calls: seq<Call>, id: nat): nat
    decreases |calls|
  {
    if calls == [] then 0 else Owners(calls[..|calls| - 1], id) + Is(Owned(calls[|calls| - 1]), id)
  }

  /** How many contexts calls own. */
  function Holdings(calls: seq<Call>): nat
    decreases |calls|
  {
    if calls == [] then 0 else Holdings(calls[..|calls| - 1]) + One(Owned(calls[|calls| - 1]))
  }

  /** How often context `id` has been released. */
  function Releases(released: seq<Ctx>, id: nat): nat
    decreases |released|
  {
    if released == [] then 0 else Releases(released[..|released| - 1], id) + Is(Some(released[|released| - 1]), id)
  }

  /** In how many places context `id` is: released, in the slot, or owned by a call. */
  function Places(s: State, id: nat): nat {
    Releases(s.table.released, id) + Is(s.table.slot, id) + Owners(s.calls, id)
  }

  /** Every context created is in exactly one place, and nothing else is anywhere. */
  ghost predicate EachInOnePlace(s: State) {
    forall id: nat :: Places(s, id) == if id < s.table.made then 1 else 0
  }

  /** Created less released is what the slot and the calls own. */
  predicate Conserved(s: State) {
    s.table.made - |s.table.released| == One(s.table.slot) + Holdings(s.calls)
  }

  /** Only an exchange writes the slot. */
  predicate SlotIsLastExchange(s: State) {
    s.table.slot == if s.exchanges == [] then None else Some(s.exchanges[|s.exchanges| - 1])
  }

  ghost predicate Inv(s: State) {
    EachInOnePlace(s) && Conserved(s) && SlotIsLastExchange(s)
  }

  lemma {:induction false} OwnersUpdate(calls: seq<Call>, i: nat, c: Call, id: nat)
    requires i < |calls|
    ensures Owners(calls[i := c], id) == Owners(calls, id) - Is(Owned(calls[i]), id) + Is(Owned(c), id)
    ensures Holdings(calls[i := c]) == Holdings(calls) - One(Owned(calls[i])) + One(Owned(c))
    decreases |calls|
  {
    hide Owned, Is, One;
    var k := |calls| - 1;
    if i == k {
      assert calls[i := c][..k] == calls[..k];
    } else {
      assert calls[i := c][..k] == calls[..k][i := c];
      OwnersUpdate(calls[..k], i, c, id);
    }
  }

  lemma ReleasesMore(released: seq<Ctx>, c: Ctx, id: nat)
    ensures Releases(released + [c], id) == Releases(released, id) + Is(Some(c), id)
  {
    assert (released + [c])[..|released|] == released;
  }

  /** One step moves contexts between places, and adds the one it creates. */
  lemma StepMoves(s: State, i: nat, o: CallOracle, id: nat)
    requires i < |s.calls|
    ensures var s' := Step(s, i, o);
            && s.table.made <= s'.table.made <= s.table.made + 1
            && Places(s', id) == Places(s, id) + (if s'.table.made > id >= s.table.made then 1 else 0)
            && (Conserved(s) ==> Conserved(s'))
            && (SlotIsLastExchange(s) ==> SlotIsLastExchange(s'))
  {
    hide GateOf, Owners, Holdings, Releases;
    var s' := Step(s, i, o);
    OwnersUpdate(s.calls, i, s'.calls[i], id);
    if s'.calls == s.calls {
      assert s.calls[i := s'.calls[i]] == s.calls;
    }
    match s.calls[i]
    case Dropping(c) => ReleasesMore(s.table.released, c, id);
    case Exchanged(was) =>
      if was.Some? {
        ReleasesMore(s.table.released, was.value, id);
      }
    case _ =>
  }

  lemma BeginMovesNothing(s: State, config: Option<CryptoConfig>, id: nat)
    ensures var s' := Next(s, Begin(config));
            Places(s', id) == Places(s, id) && (Conserved(s) ==> Conserved(s'))
  {
    assert (s.calls + [Starting(config)])[..|s.calls|] == s.calls;
  }

  lemma NextKeepsInv(s: State, e: Occurrence)
    requires Inv(s)
    ensures Inv(Next(s, e))
  {
    hide Places, Step, Conserved;
    match e
    case Begin(config) =>
      BeginMovesNothing(s, config, 0);
      forall id: nat
        ensures Places(Next(s, e), id) == Places(s, id)
      {
        BeginMovesNothing(s, config, id);
      }
    case Advance(i, o) =>
      if i < |s.calls| {
        StepMoves(s, i, o, 0);
        forall id: nat
          ensures Places(Step(s, i, o), id) == if id < Step(s, i, o).table.made then 1 else 0
        {
          StepMoves(s, i, o, id);
        }
      }
  }

  lemma {:induction false} AlwaysInv(events: seq<Occurrence>)
    ensures Inv(After(events))
    decreases |events|
  {
    if events != [] {
      hide Inv, Next;
      AlwaysInv(events[..|events| - 1]);
      NextKeepsInv(After(events[..|events| - 1]), events[|events| - 1]);
    }
  }

  lemma {:induction false} ReleasedTwice(released: seq<Ctx>, i: nat, j: nat)
    requires i < j < |released| && released[i].id == released[j].id
    ensures Releases(released, released[i].id) >= 2
    decreases |released|
  {
    var k := |released| - 1;
    if j < k {
      ReleasedTwice(released[..k], i, j);
    } else {
      ReleasedOnce(released[..k], i);
    }
  }

  lemma {:induction false} ReleasedOnce(released: seq<Ctx>, i: nat)
    requires i < |released|
    ensures Releases(released, released[i].id) >= 1
    decreases |released|
  {
    if i < |released| - 1 {
      ReleasedOnce(released[..|released| - 1], i);
    }
  }

  lemma {:induction false} OwnedByOne(calls: seq<Call>, i: nat)
    requires i < |calls| && Owned(calls[i]).Some?
    ensures Owners(calls, Owned(calls[i]).value.id) >= 1
    decreases |calls|
  {
    if i < |calls| - 1 {
      OwnedByOne(calls[..|calls| - 1], i);
    }
  }

  /** Ownership in every interleaving: what is created and not released is in the slot or held by a
      call in progress; no context is released twice; a released context is neither in the slot nor
      held. */
  lemma Ownership(events: seq<Occurrence>)
    ensures var s := After(events);
            && s.table.made - |s.table.released| == One(s.table.slot) + Holdings(s.calls)
            && (forall i, j :: 0 <= i < j < |s.table.released| ==> s.table.released[i].id != s.table.released[j].id)
            && (forall i :: 0 <= i < |s.table.released| ==> Some(s.table.released[i]) != s.table.slot)
            && (forall i, j :: 0 <= i < |s.table.released| && 0 <= j < |s.calls|
                  ==> Some(s.table.released[i]) != Owned(s.calls[j]))
  {
    AlwaysInv(events);
    hide After;
    var s := After(events);
    var released := s.table.released;
    forall i, j | 0 <= i < j < |released|
      ensures released[i].id != released[j].id
    {
      assert Places(s, released[i].id) <= 1;
      if released[i].id == released[j].id {
        ReleasedTwice(released, i, j);
      }
    }
    forall i | 0 <= i < |released|
      ensures Some(released[i]) != s.table.slot
    {
      ReleasedOnce(released, i);
      assert Places(s, released[i].id) <= 1;
    }
    forall i, j | 0 <= i < |released| && 0 <= j < |s.calls|
      ensures Some(released[i]) != Owned(s.calls[j])
    {
      ReleasedOnce(released, i);
      assert Places(s, released[i].id) <= 1;
      if Owned(s.calls[j]).Some? {
        OwnedByOne(s.calls, j);
      }
    }
  }

  /** When all calls have ended the slot holds the context of the last exchange, if there was one,
      and every other context ever created has been released. */
  lemma AtRest(events: seq<Occurrence>)
    requires forall i :: 0 <= i < |After(events).calls| ==> After(events).calls[i].Ended?
    ensures var s := After(events);
            && s.table.slot == (if s.exchanges == [] then None else Some(s.exchanges[|s.exchanges| - 1]))
            && s.table.made == |s.table.released| + One(s.table.slot)
            && (forall id: nat :: id < s.table.made ==>
                  Releases(s.table.released, id) == 1 - Is(s.table.slot, id))
  {
    AlwaysInv(events);
    hide After;
    var s := After(events);
    NothingHeld(s.calls, 0);
    forall id: nat | id < s.table.made
      ensures Releases(s.table.released, id) == 1 - Is(s.table.slot, id)
    {
      NothingHeld(s.calls, id);
      assert Places(s, id) == 1;
    }
  }

  lemma {:induction false} NothingHeld(calls: seq<Call>, id: nat)
    requires forall i :: 0 <= i < |calls| ==> calls[i].Ended?
    ensures Owners(calls, id) == 0 && Holdings(calls) == 0
    decreases |calls|
  {
    if calls != [] {
      NothingHeld(calls[..|calls| - 1], id);
    }
  }

  /** Three steps of a call that nothing interrupts do what the call does alone. */
  lemma UninterruptedCall(s: State, config: Option<CryptoConfig>, o: CallOracle)
    ensures var i := |s.calls|;
            var done := Next(Next(Next(Next(s, Begin(config)), Advance(i, o)), Advance(i, o)), Advance(i, o));
            var (t, rc) := CallAlone(s.table, config, o);
            done.table == t && done.calls == s.calls + [Ended(rc)]
  {
    hide GateOf;
    var i := |s.calls|;
    var s1 := Next(s, Begin(config));
    var s2 := Next(s1, Advance(i, o));
    var s3 := Next(s2, Advance(i, o));
    var s4 := Next(s3, Advance(i, o));
    assert s2.calls[..i] == s.calls && s3.calls[..i] == s.calls && s4.calls[..i] == s.calls;
    assert s4.calls == s.calls + [s4.calls[i]];
  }
}
