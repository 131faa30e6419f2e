/** Runs of the framed hooks on one frame form a group action: only the balance of encrypting and
    decrypting runs matters, whichever hook makes them and in whatever order. */
module FramedGroup {
  import opened Bytes
  import opened Layout
  import opened Kernel
  import opened Stats
  import opened Hooks
  import opened FramedSpec
  import opened FramedLaws

  datatype Hook = Tc | Xdp

  /** One run: which hook, in which direction, and what the kernel does. */
  datatype Op = Op(hook: Hook, dir: Direction, oracle: Oracle)

  /** The shared configuration with the action of this run. */
  function ConfigFor(cfg: CryptoConfig, d: Direction): CryptoConfig {
    cfg.(action := if d == Encrypt then ACTION_ENCRYPT else ACTION_DECRYPT)
  }

  function Step(f: bytes, op: Op, cfg: CryptoConfig, slot: Slot): Outcome {
    match op.hook
    case Tc => TcRun(f, Some(ConfigFor(cfg, op.dir)), slot, op.oracle)
    case Xdp => XdpRun(f, Some(ConfigFor(cfg, op.dir)), slot, op.oracle)
  }

  function StepAll(f: bytes, ops: seq<Op>, cfg: CryptoConfig, slot: Slot): bytes
    decreases |ops|
  {
    if ops == [] then f
    else Step(StepAll(f, ops[..|ops| - 1], cfg, slot), ops[|ops| - 1], cfg, slot).frame
  }

  predicate Succeeds(o: Oracle) {
    WindowsSucceed(o) && o.kfunc.ok
  }

  predicate AllSucceed(ops: seq<Op>) {
    forall i :: 0 <= i < |ops| ==> Succeeds(ops[i].oracle)
  }

  /** Encrypting runs minus decrypting runs. */
  function Net(ops: seq<Op>): int
    decreases |ops|
  {
    if ops == [] then 0
    else Net(ops[..|ops| - 1]) + if ops[|ops| - 1].dir == Encrypt then 1 else -1
  }

  /** The body moved `z` steps: encrypted `z` times, or decrypted `-z` times. */
  function Power(c: Cipher, iv: bytes, b: bytes, z: int): bytes
    decreases if z < 0 then -z else z
  {
    if z == 0 then b
    else if z > 0 then c.Run(Encrypt, iv, Power(c, iv, b, z - 1))
    else c.Run(Decrypt, iv, Power(c, iv, b, z + 1))
  }

  lemma {:induction false} PowerLength(c: Cipher, iv: bytes, b: bytes, z: int)
    requires |iv| == IV_BYTES && c.Fits(|b|)
    ensures |Power(c, iv, b, z)| == |b|
    decreases if z < 0 then -z else z
  {
    if z > 0 {
      PowerLength(c, iv, b, z - 1);
    } else if z < 0 {
      PowerLength(c, iv, b, z + 1);
    }
  }

  /** One more step in either direction, from any power. */
  lemma PowerStep(c: Cipher, iv: bytes, b: bytes, z: int, d: Direction)
    requires |iv| == IV_BYTES && c.Fits(|b|)
    ensures c.Run(d, iv, Power(c, iv, b, z)) == Power(c, iv, b, if d == Encrypt then z + 1 else z - 1)
  {
    if d == Encrypt && z < 0 {
      PowerLength(c, iv, b, z + 1);
      assert Power(c, iv, b, z) == c.Run(Decrypt, iv, Power(c, iv, b, z + 1));
    } else if d == Decrypt && z > 0 {
      PowerLength(c, iv, b, z - 1);
      assert Power(c, iv, b, z) == c.Run(Encrypt, iv, Power(c, iv, b, z - 1));
    }
  }

  // ----- Staying accepted ---------------------------------------------------------------------

  /** Everything admission reads lies outside the body and the UDP checksum. */
  lemma FieldsKept(f: bytes, g: bytes, n: nat)
    requires HasBody(f, n) && OnlyBodyAndChecksum(f, g, n)
    ensures HasBody(g, n) && UdpOff(g) == UdpOff(f)
    ensures EthProto(g) == EthProto(f) && Fragmented(g) == Fragmented(f) && Protocol(g) == Protocol(f)
    ensures UdpDest(g) == UdpDest(f) && UdpLen(g) == UdpLen(f)
  {
    var u := UdpOff(f);
    assert g[12] == f[12] && g[13] == f[13] && g[14] == f[14] && g[20] == f[20] && g[21] == f[21] && g[23] == f[23];
    assert g[u + 2] == f[u + 2] && g[u + 3] == f[u + 3] && g[u + 4] == f[u + 4] && g[u + 5] == f[u + 5];
  }

  lemma HeaderKept(f: bytes, g: bytes, n: nat)
    requires HasBody(f, n) && OnlyBodyAndChecksum(f, g, n)
    ensures UdpOff(g) == UdpOff(f) && HasBody(g, n)
    ensures Magic(g) == Magic(f) && Version(g) == Version(f) && Action(g) == Action(f)
    ensures DeclaredLen(g) == DeclaredLen(f) && At(g, IvOff(f), IV_BYTES) == At(f, IvOff(f), IV_BYTES)
  {
    FieldsKept(f, g, n);
    var p := PayloadOff(f);
    assert At(g, p, HEADER_BYTES) == At(f, p, HEADER_BYTES);
    SameHeaderFields(f, g, p);
    AtAt(f, p, HEADER_BYTES, IV_OFFSET, IV_BYTES);
    AtAt(g, p, HEADER_BYTES, IV_OFFSET, IV_BYTES);
  }

  /** A successful run keeps a frame accepted by both hooks, in both directions. */
  lemma StaysAdmitted(f: bytes, g: bytes, n: nat, cfg: CryptoConfig, d: Direction, d': Direction)
    requires TcAdmitted(f, Some(ConfigFor(cfg, d))) == Admit(n)
    requires OnlyBodyAndChecksum(f, g, n)
    ensures TcAdmitted(g, Some(ConfigFor(cfg, d'))) == Admit(n)
    ensures At(g, IvOff(f), IV_BYTES) == At(f, IvOff(f), IV_BYTES)
    ensures HasBody(g, n) && UdpOff(g) == UdpOff(f)
  {
    hide Get16, Get32, OnlyBodyAndChecksum;
    FieldsKept(f, g, n);
    HeaderKept(f, g, n);
  }

  lemma SameHeaderFields(f: bytes, g: bytes, p: nat)
    requires p + HEADER_BYTES <= |f| == |g|
    requires At(g, p, HEADER_BYTES) == At(f, p, HEADER_BYTES)
    ensures Get32(g, p) == Get32(f, p) && g[p + 4] == f[p + 4] && g[p + 5] == f[p + 5]
    ensures Get16(g, p + 6) == Get16(f, p + 6)
  {
    Get32At(f, p, HEADER_BYTES, 0);
    Get32At(g, p, HEADER_BYTES, 0);
    Get16At(f, p, HEADER_BYTES, 6);
    Get16At(g, p, HEADER_BYTES, 6);
    assert At(g, p, HEADER_BYTES)[4] == g[p + 4] && At(g, p, HEADER_BYTES)[5] == g[p + 5];
    assert At(f, p, HEADER_BYTES)[4] == f[p + 4] && At(f, p, HEADER_BYTES)[5] == f[p + 5];
  }

  /** Accepted by `tc_crypto` as CBC: accepted by `xdp_crypto` with the same body. */
  lemma TcImpliesXdp(f: bytes, cfg: CryptoConfig, n: nat)
    requires TcAdmitted(f, Some(cfg)) == Admit(n)
    ensures XdpAdmitted(f, Some(cfg)) == Admit(n)
  {
    hide Get16, Get32;
  }

  // ----- The action ---------------------------------------------------------------------------

  /** `g` is `f` with its body moved `z` steps. */
  ghost predicate MovedTo(f: bytes, g: bytes, n: nat, c: Cipher, z: int)
    requires HasBody(f, n)
  {
    && OnlyBodyAndChecksum(f, g, n)
    && At(g, BodyOff(f), n) == Power(c, At(f, IvOff(f), IV_BYTES), At(f, BodyOff(f), n), z)
  }

  /** One successful run moves the body one step. */
  lemma StepMoves(f: bytes, g: bytes, n: nat, z: int, op: Op, cfg: CryptoConfig, slot: Slot)
    requires TcAdmitted(f, Some(ConfigFor(cfg, Encrypt))) == Admit(n)
    requires slot.Held? && Succeeds(op.oracle) && MovedTo(f, g, n, slot.cipher, z)
    ensures Step(g, op, cfg, slot).verdict == Done
    ensures MovedTo(f, Step(g, op, cfg, slot).frame, n, slot.cipher, if op.dir == Encrypt then z + 1 else z - 1)
    ensures Get16(Step(g, op, cfg, slot).frame, UdpOff(f) + 6) == 0
  {
    hide TcAdmitted, XdpAdmitted, Transform, Power, Get16, Get32;
    StaysAdmitted(f, g, n, cfg, Encrypt, op.dir);
    TcImpliesXdp(g, ConfigFor(cfg, op.dir), n);
    assert Step(g, op, cfg, slot) == Transform(g, n, ConfigFor(cfg, op.dir), slot, op.oracle);
    CbcBodyFits(f, cfg, n);
    TransformSucceeds(g, n, ConfigFor(cfg, op.dir), slot, op.oracle);
    TransformFrame(g, n, ConfigFor(cfg, op.dir), slot, op.oracle);
    PowerStep(slot.cipher, At(f, IvOff(f), IV_BYTES), At(f, BodyOff(f), n), z, op.dir);
  }

  lemma CbcBodyFits(f: bytes, cfg: CryptoConfig, n: nat)
    requires TcAdmitted(f, Some(ConfigFor(cfg, Encrypt))) == Admit(n)
    ensures n % BLOCK_BYTES == 0
  {
  }

  lemma TransformSucceeds(f: bytes, n: nat, cfg: CryptoConfig, slot: Slot, o: Oracle)
    requires HasBody(f, n) && n % BLOCK_BYTES == 0 && ValidAction(cfg) && slot.Held? && Succeeds(o)
    ensures Transform(f, n, cfg, slot, o).verdict == Done
  {
  }

  /** All runs together move the body by their balance. */
  lemma {:induction false} StepAllMoves(f: bytes, n: nat, ops: seq<Op>, cfg: CryptoConfig, slot: Slot)
    requires TcAdmitted(f, Some(ConfigFor(cfg, Encrypt))) == Admit(n)
    requires slot.Held? && AllSucceed(ops)
    ensures MovedTo(f, StepAll(f, ops, cfg, slot), n, slot.cipher, Net(ops))
    ensures ops != [] ==> Get16(StepAll(f, ops, cfg, slot), UdpOff(f) + 6) == 0
    ensures AllDone(f, ops, cfg, slot)
    decreases |ops|
  {
    hide TcAdmitted, Step, Power, OnlyBodyAndChecksum;
    if ops == [] {
      NothingMoved(f, n, slot.cipher);
    } else {
      var k := |ops| - 1;
      StepAllMoves(f, n, ops[..k], cfg, slot);
      StepMoves(f, StepAll(f, ops[..k], cfg, slot), n, Net(ops[..k]), ops[k], cfg, slot);
    }
  }

  /** Every run of the list succeeds. */
  predicate AllDone(f: bytes, ops: seq<Op>, cfg: CryptoConfig, slot: Slot)
    decreases |ops|
  {
    ops == [] ||
    (var k := |ops| - 1;
     && AllDone(f, ops[..k], cfg, slot)
     && Step(StepAll(f, ops[..k], cfg, slot), ops[k], cfg, slot).verdict == Done)
  }

  lemma NothingMoved(f: bytes, n: nat, c: Cipher)
    requires HasBody(f, n)
    ensures MovedTo(f, f, n, c, 0)
  {
  }

  /** The group law: two non-empty lists of successful runs with the same balance leave the same
      frame, byte for byte. */
  lemma OnlyTheBalanceMatters(f: bytes, n: nat, ops: seq<Op>, ops': seq<Op>, cfg: CryptoConfig, slot: Slot)
    requires TcAdmitted(f, Some(ConfigFor(cfg, Encrypt))) == Admit(n)
    requires slot.Held? && AllSucceed(ops) && AllSucceed(ops') && ops != [] && ops' != []
    requires Net(ops) == Net(ops')
    ensures StepAll(f, ops, cfg, slot) == StepAll(f, ops', cfg, slot)
  {
    hide TcAdmitted, StepAll, Power;
    StepAllMoves(f, n, ops, cfg, slot);
    StepAllMoves(f, n, ops', cfg, slot);
    SameMove(f, StepAll(f, ops, cfg, slot), StepAll(f, ops', cfg, slot), n, slot.cipher, Net(ops));
  }

  lemma SameMove(f: bytes, g: bytes, h: bytes, n: nat, c: Cipher, z: int)
    requires HasBody(f, n) && MovedTo(f, g, n, c, z) && MovedTo(f, h, n, c, z)
    requires Get16(g, UdpOff(f) + 6) == 0 && Get16(h, UdpOff(f) + 6) == 0
    ensures g == h
  {
    hide Power;
    forall i | 0 <= i < |f|
      ensures g[i] == h[i]
    {
      if BodyOff(f) <= i < BodyOff(f) + n {
        assert g[i] == At(g, BodyOff(f), n)[i - BodyOff(f)];
        assert h[i] == At(h, BodyOff(f), n)[i - BodyOff(f)];
      }
    }
  }

  /** In particular a balanced list gives the frame back, its UDP checksum zeroed. */
  lemma BalancedIsIdentity(f: bytes, n: nat, ops: seq<Op>, cfg: CryptoConfig, slot: Slot)
    requires TcAdmitted(f, Some(ConfigFor(cfg, Encrypt))) == Admit(n)
    requires slot.Held? && AllSucceed(ops) && ops != [] && Net(ops) == 0
    ensures StepAll(f, ops, cfg, slot) == Splice(f, UdpOff(f) + 6, [0, 0])
  {
    hide TcAdmitted, StepAll;
    StepAllMoves(f, n, ops, cfg, slot);
    ZeroMove(f, StepAll(f, ops, cfg, slot), n, slot.cipher);
  }

  // ----- The stream cipher --------------------------------------------------------------------

  predicate AllXdp(ops: seq<Op>) {
    forall i :: 0 <= i < |ops| ==> ops[i].hook == Xdp
  }

  /** `xdp_crypto` also serves the stream cipher, for bodies of any length. On whatever frame it
      admits, in whatever mode, all its runs succeed and move the body by their balance. */
  lemma {:induction false} XdpStepAllMoves(f: bytes, n: nat, ops: seq<Op>, cfg: CryptoConfig, d: Direction, slot: Slot)
    requires XdpAdmitted(f, Some(ConfigFor(cfg, d))) == Admit(n)
    requires slot.Held? && slot.cipher.Fits(n) && AllSucceed(ops) && AllXdp(ops)
    ensures MovedTo(f, StepAll(f, ops, cfg, slot), n, slot.cipher, Net(ops))
    ensures ops != [] ==> Get16(StepAll(f, ops, cfg, slot), UdpOff(f) + 6) == 0
    ensures AllDone(f, ops, cfg, slot)
    decreases |ops|
  {
    hide XdpAdmitted, Power, OnlyBodyAndChecksum, RawCipher.Fits, XdpRun;
    if ops == [] {
      NothingMoved(f, n, slot.cipher);
    } else {
      var k := |ops| - 1;
      XdpStepAllMoves(f, n, ops[..k], cfg, d, slot);
      XdpStepMoves(f, StepAll(f, ops[..k], cfg, slot), n, Net(ops[..k]), cfg, d, ops[k].dir, slot, ops[k].oracle);
    }
  }

  /** The group law for `xdp_crypto` alone, in any mode. */
  lemma XdpOnlyTheBalanceMatters(f: bytes, n: nat, ops: seq<Op>, ops': seq<Op>, cfg: CryptoConfig, d: Direction,
                                 slot: Slot)
    requires XdpAdmitted(f, Some(ConfigFor(cfg, d))) == Admit(n)
    requires slot.Held? && slot.cipher.Fits(n) && AllSucceed(ops) && AllXdp(ops) && AllSucceed(ops') && AllXdp(ops')
    requires ops != [] && ops' != [] && Net(ops) == Net(ops')
    ensures StepAll(f, ops, cfg, slot) == StepAll(f, ops', cfg, slot)
    ensures Net(ops) == 0 ==> StepAll(f, ops, cfg, slot) == Splice(f, UdpOff(f) + 6, [0, 0])
  {
    hide XdpAdmitted, StepAll, Power, RawCipher.Fits;
    XdpStepAllMoves(f, n, ops, cfg, d, slot);
    XdpStepAllMoves(f, n, ops', cfg, d, slot);
    SameMove(f, StepAll(f, ops, cfg, slot), StepAll(f, ops', cfg, slot), n, slot.cipher, Net(ops));
    if Net(ops) == 0 {
      ZeroMove(f, StepAll(f, ops, cfg, slot), n, slot.cipher);
    }
  }

  lemma ZeroMove(f: bytes, g: bytes, n: nat, c: Cipher)
    requires HasBody(f, n) && MovedTo(f, g, n, c, 0) && Get16(g, UdpOff(f) + 6) == 0
    ensures g == Splice(f, UdpOff(f) + 6, [0, 0])
  {
    hide Power;
    var z := Splice(f, UdpOff(f) + 6, [0, 0]);
    PowerZero(c, At(f, IvOff(f), IV_BYTES), At(f, BodyOff(f), n));
    SpliceMiss(f, UdpOff(f) + 6, [0, 0], BodyOff(f), n);
    SameMove(f, g, z, n, c, 0);
  }

  /** In particular an encrypting and a decrypting run in either order restore the frame. */
  lemma XdpPairRestores(f: bytes, n: nat, cfg: CryptoConfig, d: Direction, slot: Slot, o: Oracle, o': Oracle)
    requires XdpAdmitted(f, Some(ConfigFor(cfg, d))) == Admit(n)
    requires slot.Held? && slot.cipher.Fits(n) && Succeeds(o) && Succeeds(o')
    ensures var g := XdpRun(f, Some(ConfigFor(cfg, d)), slot, o);
            var h := XdpRun(g.frame, Some(ConfigFor(cfg, Opposite(d))), slot, o');
            g.verdict == Done && h.verdict == Done && h.frame == Splice(f, UdpOff(f) + 6, [0, 0])
  {
    hide XdpAdmitted, Power, XdpRun, OnlyBodyAndChecksum;
    NothingMoved(f, n, slot.cipher);
    XdpStepMoves(f, f, n, 0, cfg, d, d, slot, o);
    var g := XdpRun(f, Some(ConfigFor(cfg, d)), slot, o).frame;
    XdpStepMoves(f, g, n, if d == Encrypt then 1 else -1, cfg, d, Opposite(d), slot, o');
    ZeroMove(f, XdpRun(g, Some(ConfigFor(cfg, Opposite(d))), slot, o').frame, n, slot.cipher);
  }

  function Opposite(d: Direction): Direction {
    if d == Encrypt then Decrypt else Encrypt
  }

  lemma PowerZero(c: Cipher, iv: bytes, b: bytes)
    ensures Power(c, iv, b, 0) == b
  {
  }

  lemma XdpStepMoves(f: bytes, g: bytes, n: nat, z: int, cfg: CryptoConfig, d: Direction, e: Direction,
                     slot: Slot, o: Oracle)
    requires XdpAdmitted(f, Some(ConfigFor(cfg, d))) == Admit(n)
    requires slot.Held? && slot.cipher.Fits(n) && Succeeds(o) && MovedTo(f, g, n, slot.cipher, z)
    ensures var r := XdpRun(g, Some(ConfigFor(cfg, e)), slot, o);
            && r.verdict == Done && Get16(r.frame, UdpOff(f) + 6) == 0
            && MovedTo(f, r.frame, n, slot.cipher, if e == Encrypt then z + 1 else z - 1)
  {
    hide XdpAdmitted, Transform, Power, Get16, Get32;
    StaysXdpAdmitted(f, g, n, cfg, d, e);
    XdpTransformSucceeds(g, n, ConfigFor(cfg, e), slot, o);
    TransformFrame(g, n, ConfigFor(cfg, e), slot, o);
    PowerStep(slot.cipher, At(f, IvOff(f), IV_BYTES), At(f, BodyOff(f), n), z, e);
  }

  lemma StaysXdpAdmitted(f: bytes, g: bytes, n: nat, cfg: CryptoConfig, d: Direction, e: Direction)
    requires XdpAdmitted(f, Some(ConfigFor(cfg, d))) == Admit(n)
    requires OnlyBodyAndChecksum(f, g, n)
    ensures XdpAdmitted(g, Some(ConfigFor(cfg, e))) == Admit(n)
    ensures At(g, IvOff(f), IV_BYTES) == At(f, IvOff(f), IV_BYTES)
    ensures HasBody(g, n) && UdpOff(g) == UdpOff(f)
  {
    hide Get16, Get32, OnlyBodyAndChecksum;
    FieldsKept(f, g, n);
    HeaderKept(f, g, n);
  }

  lemma XdpTransformSucceeds(f: bytes, n: nat, cfg: CryptoConfig, slot: Slot, o: Oracle)
    requires HasBody(f, n) && ValidAction(cfg) && slot.Held? && slot.cipher.Fits(n) && Succeeds(o)
    ensures Transform(f, n, cfg, slot, o).verdict == Done
  {
  }
}
