/** The command line of the user-space program. */
module Config {
  import opened Bytes
  import opened Layout
  import opened Hex
  import CryptoCtx

  const IFACE_NAME_MAX := 64
  const HOOK_XDP := 1
  const HOOK_TC := 2
  const HOOK_BOTH := 3
  const TC_ATTACH_AUTO := 0
  const TC_ATTACH_INGRESS := 1
  const TC_ATTACH_EGRESS := 2
  const UINT_MAX := 0xFFFF_FFFF
  const ULONG_MAX := 0xFFFF_FFFF_FFFF_FFFF

  /** `struct ebaf_user_config`. */
  datatype UserConfig = UserConfig(
    iface: string, crypto: CryptoConfig, hook: nat, tcAttach: nat,
    statsInterval: u32, duration: u32, printEvents: bool, outputJsonl: bool)

  // ----- Numbers ------------------------------------------------------------------------------

  predicate IsDigit(c: char) {
    '0' <= c <= '9'
  }

  predicate IsSpace(c: char) {
    c == ' ' || '\t' <= c <= '\r'
  }

  function SkipSpaces(s: string, i: nat): (j: nat)
    requires i <= |s|
    ensures i <= j <= |s|
    decreases |s| - i
  {
    if i < |s| && IsSpace(s[i]) then SkipSpaces(s, i + 1) else i
  }

  function SkipDigits(s: string, i: nat): (j: nat)
    requires i <= |s|
    ensures i <= j <= |s| && forall k :: i <= k < j ==> IsDigit(s[k])
    decreases |s| - i
  {
    if i < |s| && IsDigit(s[i]) then SkipDigits(s, i + 1) else i
  }

  function Decimal(s: string): nat
    requires forall k :: 0 <= k < |s| ==> IsDigit(s[k])
  {
    if s == [] then 0 else
    assert IsDigit(s[|s| - 1]);
    Decimal(s[..|s| - 1]) * 10 + (s[|s| - 1] as int - '0' as int)
  }

  datatype Number = Number(value: nat, end: nat, range: bool)

  /** `strtoul(text, &end, 10)` of the C library, with `end` as an index: leading white space, an
      optional sign, digits; a minus sign negates modulo 2^64, and too large a value is an error. */
  function Strtoul(s: string): Number {
    var i := SkipSpaces(s, 0);
    var sign := i < |s| && (s[i] == '+' || s[i] == '-');
    var from := if sign then i + 1 else i;
    var end := SkipDigits(s, from);
    if end == from then Number(0, 0, false) else
    var v := Decimal(s[from..end]);
    if v > ULONG_MAX then Number(ULONG_MAX, end, true)
    else if sign && s[i] == '-' && v > 0 then Number(ULONG_MAX + 1 - v, end, false)
    else Number(v, end, false)
  }

  /** `parse_uint`. */
  function ParseUint(text: string, min: nat, max: nat): (r: Option<nat>)
    ensures r.Some? ==> min <= r.value <= max
  {
    if text == "" then None else
    var n := Strtoul(text);
    if n.range || n.end == 0 || n.end != |text| || n.value < min || n.value > max then None else Some(n.value)
  }

  /** Canonical numerals. */
  function Numeral(n: nat): (s: string)
    ensures s != [] && forall k :: 0 <= k < |s| ==> IsDigit(s[k])
  {
    var last := ('0' as int + n % 10) as char;
    if n < 10 then [last] else Numeral(n / 10) + [last]
  }

  lemma {:induction false} DecimalOfNumeral(n: nat)
    ensures Decimal(Numeral(n)) == n
  {
    var s := Numeral(n);
    if n >= 10 {
      DecimalOfNumeral(n / 10);
      assert s[..|s| - 1] == Numeral(n / 10);
    } else {
      assert s[..|s| - 1] == [];
    }
  }

  lemma {:induction false} SkipAllDigits(s: string, i: nat)
    requires i <= |s| && forall k :: 0 <= k < |s| ==> IsDigit(s[k])
    ensures SkipDigits(s, i) == |s|
    decreases |s| - i
  {
    if i < |s| {
      SkipAllDigits(s, i + 1);
    }
  }

  /** Every number in range has a numeral that parses to it. */
  lemma ParseNumeral(n: nat, min: nat, max: nat)
    requires min <= n <= max <= ULONG_MAX
    ensures ParseUint(Numeral(n), min, max) == Some(n)
  {
    var s := Numeral(n);
    assert !IsSpace(s[0]) && s[0] != '+' && s[0] != '-';
    SkipAllDigits(s, 0);
    assert s[0..|s|] == s;
    DecimalOfNumeral(n);
  }

  // ----- Options ------------------------------------------------------------------------------

  /** What the option loop has collected so far. */
  datatype Seen = Seen(
    iface: Option<string>, mode: Option<string>, key: Option<string>, algo: string,
    port: nat, statsInterval: nat, duration: nat, hook: nat, tcAttach: nat,
    printEvents: bool, outputJsonl: bool, flags: u32)

  const NOTHING_SEEN :=
    Seen(None, None, None, "cbc-aes", DEFAULT_UDP_PORT, 1, 0, HOOK_XDP, TC_ATTACH_AUTO, false, false, 0)

  function HookOf(name: string): (h: Option<nat>)
    ensures h.Some? ==> HOOK_XDP <= h.value <= HOOK_BOTH
  {
    if name == "xdp" then Some(HOOK_XDP)
    else if name == "tc" then Some(HOOK_TC)
    else if name == "both" then Some(HOOK_BOTH)
    else None
  }

  /** One option with a value; None if there is no such option or the value is refused. */
  function TakeValue(a: Seen, name: string, value: string): Option<Seen> {
    if name == "--iface" then Some(a.(iface := Some(value)))
    else if name == "--mode" then Some(a.(mode := Some(value)))
    else if name == "--key" then Some(a.(key := Some(value)))
    else if name == "--algo" then Some(a.(algo := value))
    else if name == "--port" then
      (var n := ParseUint(value, 1, 65535); if n.None? then None else Some(a.(port := n.value)))
    else if name == "--stats-interval" then
      (var n := ParseUint(value, 1, UINT_MAX); if n.None? then None else Some(a.(statsInterval := n.value)))
    else if name == "--duration" then
      (var n := ParseUint(value, 1, UINT_MAX); if n.None? then None else Some(a.(duration := n.value)))
    else if name == "--hook" then
      (var h := HookOf(value); if h.None? then None else Some(a.(hook := h.value)))
    else None
  }

  predicate TakesValue(name: string) {
    name in {"--iface", "--mode", "--key", "--algo", "--port", "--stats-interval", "--duration", "--hook"}
  }

  /** One option without a value. */
  function TakeFlag(a: Seen, name: string): Option<Seen> {
    if name == "--events" then Some(a.(printEvents := true))
    else if name == "--jsonl" then Some(a.(outputJsonl := true, printEvents := true))
    else if name == "--transparent" then Some(a.(flags := F_TRANSPARENT))
    else if name == "--tc-ingress" then Some(a.(tcAttach := TC_ATTACH_INGRESS))
    else if name == "--tc-egress" then Some(a.(tcAttach := TC_ATTACH_EGRESS))
    else None
  }

  /** The option loop on the arguments that are left. */
  function Scan(args: seq<string>, a: Seen): Option<Seen>
    decreases |args|
  {
    if args == [] then Some(a) else
    if TakesValue(args[0]) && |args| > 1 then
      (var b := TakeValue(a, args[0], args[1]); if b.None? then None else Scan(args[2..], b.value))
    else
      (var b := TakeFlag(a, args[0]); if b.None? then None else Scan(args[1..], b.value))
  }

  function ActionOf(mode: string): Option<u32> {
    if mode == "encrypt" then Some(ACTION_ENCRYPT) else if mode == "decrypt" then Some(ACTION_DECRYPT) else None
  }

  function AlgoOf(name: string): Option<u32> {
    if name == "cbc-aes" then Some(ALGO_CBC_AES) else if name == "chacha20" then Some(ALGO_CHACHA20) else None
  }

  function KeyLen(algo: u32): nat {
    if algo == ALGO_CHACHA20 then CHACHA20_KEY_BYTES else AES128_KEY_BYTES
  }

  /** A parsed key at the start of the zeroed key field. */
  function KeyFieldOf(k: bytes): KeyField
    requires |k| <= MAX_KEY_BYTES
  {
    k + Repeat(0, MAX_KEY_BYTES - |k|)
  }

  /** The checks and conversions after the loop. */
  function Conclude(a: Seen): Option<UserConfig> {
    if a.iface.None? || a.mode.None? || a.key.None? then None else
    if |a.iface.value| >= IFACE_NAME_MAX then None else
    var action, algo := ActionOf(a.mode.value), AlgoOf(a.algo);
    if action.None? || algo.None? then None else
    var n := KeyLen(algo.value);
    if |a.key.value| != 2 * n || !IsHex(a.key.value) then None else
    var key := KeyFieldOf(Parse(a.key.value));
    Some(UserConfig(a.iface.value,
                    CryptoConfig(key, n, action.value, algo.value, a.flags, a.port % 0x1_0000),
                    a.hook, a.tcAttach, a.statsInterval % 0x1_0000_0000, a.duration % 0x1_0000_0000,
                    a.printEvents, a.outputJsonl))
  }

  /** `ebaf_parse_args` on values: the configuration, or None for -1. */
  function ParseArgs(argv: seq<string>): Option<UserConfig> {
    var a := Scan(if argv == [] then [] else argv[1..], NOTHING_SEEN);
    if a.None? then None else Conclude(a.value)
  }

  /** `ebaf_parse_args` with its option loop. */
  method ParseArgsInPlace(argv: seq<string>) returns (cfg: Option<UserConfig>)
    ensures cfg == ParseArgs(argv)
  {
    hide Conclude, ParseUint, HookOf;
    var a := NOTHING_SEEN;
    var i := 1;
    ghost var args := if argv == [] then [] else argv[1..];
    while i < |argv|
      invariant 1 <= i && (argv != [] ==> i <= |argv|)
      invariant Scan(args, NOTHING_SEEN) == Scan(if i <= |argv| then argv[i..] else [], a)
    {
      ghost var rest := argv[i..];
      var name := argv[i];
      if TakesValue(name) && i + 1 < |argv| {
        var b := TakeValue(a, name, argv[i + 1]);
        assert rest[2..] == argv[i + 2..];
        if b.None? {
          return None;
        }
        a := b.value;
        i := i + 2;
      } else {
        var b := TakeFlag(a, name);
        assert rest[1..] == argv[i + 1..];
        if b.None? {
          return None;
        }
        a := b.value;
        i := i + 1;
      }
    }
    cfg := ConcludeInPlace(a);
  }

  /** The part of `ebaf_parse_args` after the loop; the key goes into the zeroed field. */
  method ConcludeInPlace(a: Seen) returns (cfg: Option<UserConfig>)
    ensures cfg == Conclude(a)
  {
    if a.iface.None? || a.mode.None? || a.key.None? {
      return None;
    }
    if |a.iface.value| >= IFACE_NAME_MAX {
      return None;
    }
    var action, algo := ActionOf(a.mode.value), AlgoOf(a.algo);
    if action.None? || algo.None? {
      return None;
    }
    var n := KeyLen(algo.value);
    var key := new byte[MAX_KEY_BYTES](_ => 0);
    var rc := ParseHexKey(a.key, key, n);
    if rc != 0 {
      return None;
    }
    assert key[..] == key[..n] + key[n..];
    assert key[n..] == Repeat(0, MAX_KEY_BYTES - n);
    return Some(UserConfig(a.iface.value,
                           CryptoConfig(key[..], n, action.value, algo.value, a.flags, a.port % 0x1_0000),
                           a.hook, a.tcAttach, a.statsInterval % 0x1_0000_0000, a.duration % 0x1_0000_0000,
                           a.printEvents, a.outputJsonl));
  }

  // ----- What acceptance guarantees -----------------------------------------------------------

  /** The configurations the rest of the program counts on. */
  predicate Valid(c: UserConfig) {
    && |c.iface| < IFACE_NAME_MAX
    && (c.crypto.action == ACTION_ENCRYPT || c.crypto.action == ACTION_DECRYPT)
    && (c.crypto.algo == ALGO_CBC_AES || c.crypto.algo == ALGO_CHACHA20)
    && c.crypto.keyLen == KeyLen(c.crypto.algo)
    && (forall i :: c.crypto.keyLen <= i < MAX_KEY_BYTES ==> c.crypto.key[i] == 0)
    && c.crypto.udpPort >= 1 && c.statsInterval >= 1
    && HOOK_XDP <= c.hook <= HOOK_BOTH && TC_ATTACH_AUTO <= c.tcAttach <= TC_ATTACH_EGRESS
    && (c.crypto.flags == 0 || c.crypto.flags == F_TRANSPARENT)
    && (c.outputJsonl ==> c.printEvents)
  }

  /** What the loop keeps about the fields it fills. */
  predicate InRange(a: Seen) {
    && 1 <= a.port <= 65535 && 1 <= a.statsInterval <= UINT_MAX && a.duration <= UINT_MAX
    && HOOK_XDP <= a.hook <= HOOK_BOTH && TC_ATTACH_AUTO <= a.tcAttach <= TC_ATTACH_EGRESS
    && (a.flags == 0 || a.flags == F_TRANSPARENT) && (a.outputJsonl ==> a.printEvents)
  }

  lemma {:induction false} ScanKeepsRange(args: seq<string>, a: Seen)
    requires InRange(a)
    ensures Scan(args, a).Some? ==> InRange(Scan(args, a).value)
    decreases |args|
  {
    hide InRange, TakeValue, TakeFlag, TakesValue;
    if args != [] {
      if TakesValue(args[0]) && |args| > 1 {
        ValueKeepsRange(a, args[0], args[1]);
        var b := TakeValue(a, args[0], args[1]);
        if b.Some? {
          ScanKeepsRange(args[2..], b.value);
        }
      } else {
        FlagKeepsRange(a, args[0]);
        var b := TakeFlag(a, args[0]);
        if b.Some? {
          ScanKeepsRange(args[1..], b.value);
        }
      }
    }
  }

  lemma ValueKeepsRange(a: Seen, name: string, value: string)
    requires InRange(a)
    ensures var b := TakeValue(a, name, value); b.Some? ==> InRange(b.value)
  {
    hide ParseUint, HookOf;
    var b := TakeValue(a, name, value);
    if b.Some? {
      NumbersTaken(a, name, value);
      OthersKept(a, name, value);
      hide TakeValue;
    }
  }

  lemma NumbersTaken(a: Seen, name: string, value: string)
    requires TakeValue(a, name, value).Some?
    ensures var b := TakeValue(a, name, value).value;
            && (b.port == a.port || 1 <= b.port <= 65535)
            && (b.statsInterval == a.statsInterval || 1 <= b.statsInterval <= UINT_MAX)
            && (b.duration == a.duration || b.duration <= UINT_MAX)
            && (b.hook == a.hook || HOOK_XDP <= b.hook <= HOOK_BOTH)
  {
    hide ParseUint, HookOf;
  }

  lemma OthersKept(a: Seen, name: string, value: string)
    requires TakeValue(a, name, value).Some?
    ensures var b := TakeValue(a, name, value).value;
            && b.tcAttach == a.tcAttach && b.flags == a.flags
            && b.outputJsonl == a.outputJsonl && b.printEvents == a.printEvents
  {
    hide ParseUint, HookOf;
  }

  lemma FlagKeepsRange(a: Seen, name: string)
    requires InRange(a)
    ensures var b := TakeFlag(a, name); b.Some? ==> InRange(b.value)
  {
  }

  /** Every accepted command line gives a valid configuration, which `create_crypto_ctx` never
      refuses: it hands the kernel exactly the key bytes that were parsed. */
  lemma AcceptedIsValid(argv: seq<string>)
    requires ParseArgs(argv).Some?
    ensures Valid(ParseArgs(argv).value)
    ensures var c := ParseArgs(argv).value.crypto;
            CryptoCtx.GateOf(Some(c)).Granted? && CryptoCtx.GateOf(Some(c)).params.key == c.key[..c.keyLen]
  {
    hide Scan;
    ScanKeepsRange(if argv == [] then [] else argv[1..], NOTHING_SEEN);
  }

  // ----- Rendering ----------------------------------------------------------------------------

  datatype Opt =
    | Iface(name: string) | Mode(action: u32) | Key(hex: string) | Algo(algo: u32)
    | Port(n: nat) | StatsInterval(n: nat) | Duration(n: nat) | Hook(hook: nat)
    | Events | Jsonl | Transparent | Ingress | Egress

  function ModeName(action: u32): string {
    if action == ACTION_ENCRYPT then "encrypt" else "decrypt"
  }

  function AlgoName(algo: u32): string {
    if algo == ALGO_CHACHA20 then "chacha20" else "cbc-aes"
  }

  function HookName(hook: nat): string {
    if hook == HOOK_XDP then "xdp" else if hook == HOOK_TC then "tc" else "both"
  }

  /** An option as it is written on the command line. */
  function Words(o: Opt): seq<string> {
    match o
    case Iface(name) => ["--iface", name]
    case Mode(action) => ["--mode", ModeName(action)]
    case Key(hex) => ["--key", hex]
    case Algo(algo) => ["--algo", AlgoName(algo)]
    case Port(n) => ["--port", Numeral(n)]
    case StatsInterval(n) => ["--stats-interval", Numeral(n)]
    case Duration(n) => ["--duration", Numeral(n)]
    case Hook(h) => ["--hook", HookName(h)]
    case Events => ["--events"]
    case Jsonl => ["--jsonl"]
    case Transparent => ["--transparent"]
    case Ingress => ["--tc-ingress"]
    case Egress => ["--tc-egress"]
  }

  function Render(opts: seq<Opt>): seq<string>
    decreases |opts|
  {
    if opts == [] then [] else Words(opts[0]) + Render(opts[1..])
  }

  /** The option states what the configuration has. */
  predicate Says(o: Opt, c: UserConfig) {
    match o
    case Iface(name) => name == c.iface
    case Mode(action) => action == c.crypto.action
    case Key(hex) => KeyText(hex, c)
    case Algo(algo) => algo == c.crypto.algo
    case Port(n) => n == c.crypto.udpPort
    case StatsInterval(n) => n == c.statsInterval
    case Duration(n) => n == c.duration && n >= 1
    case Hook(h) => h == c.hook
    case Events => c.printEvents
    case Jsonl => c.outputJsonl
    case Transparent => c.crypto.flags == F_TRANSPARENT
    case Ingress => c.tcAttach == TC_ATTACH_INGRESS
    case Egress => c.tcAttach == TC_ATTACH_EGRESS
  }

  /** The field an option states. */
  datatype Kind =
    | IfaceKind | ModeKind | KeyKind | AlgoKind | PortKind | StatsKind | DurationKind | HookKind
    | EventsKind | JsonlKind | TransparentKind | AttachKind

  function KindOf(o: Opt): Kind {
    match o
    case Iface(_) => IfaceKind
    case Mode(_) => ModeKind
    case Key(_) => KeyKind
    case Algo(_) => AlgoKind
    case Port(_) => PortKind
    case StatsInterval(_) => StatsKind
    case Duration(_) => DurationKind
    case Hook(_) => HookKind
    case Events => EventsKind
    case Jsonl => JsonlKind
    case Transparent => TransparentKind
    case Ingress => AttachKind
    case Egress => AttachKind
  }

  predicate Has(opts: seq<Opt>, k: Kind)
    decreases |opts|
  {
    opts != [] && (KindOf(opts[0]) == k || Has(opts[1..], k))
  }

  /** Every field that differs from its default is stated. */
  predicate Covers(opts: seq<Opt>, c: UserConfig) {
    && Has(opts, IfaceKind) && Has(opts, ModeKind) && Has(opts, KeyKind)
    && (c.crypto.algo == ALGO_CBC_AES || Has(opts, AlgoKind))
    && (c.crypto.udpPort == DEFAULT_UDP_PORT || Has(opts, PortKind))
    && (c.statsInterval == 1 || Has(opts, StatsKind))
    && (c.duration == 0 || Has(opts, DurationKind))
    && (c.hook == HOOK_XDP || Has(opts, HookKind))
    && (c.tcAttach == TC_ATTACH_AUTO || Has(opts, AttachKind))
    && (!c.printEvents || Has(opts, EventsKind) || Has(opts, JsonlKind))
    && (!c.outputJsonl || Has(opts, JsonlKind))
    && (c.crypto.flags == 0 || Has(opts, TransparentKind))
  }

  /** A key text that gives the key of the configuration. */
  predicate KeyText(hex: string, c: UserConfig) {
    && |hex| == 2 * c.crypto.keyLen && IsHex(hex)
    && c.crypto.keyLen <= MAX_KEY_BYTES && KeyFieldOf(Parse(hex)) == c.crypto.key
  }

  /** What has been collected, with the options still to come, amounts to the configuration. */
  predicate Toward(a: Seen, opts: seq<Opt>, c: UserConfig) {
    TowardTexts(a, opts, c) && TowardNumbers(a, opts, c) && TowardHooks(a, opts, c) && TowardFlags(a, opts, c)
  }

  predicate TowardTexts(a: Seen, opts: seq<Opt>, c: UserConfig) {
    && (a.iface == Some(c.iface) || Has(opts, IfaceKind))
    && ((a.mode.Some? && ActionOf(a.mode.value) == Some(c.crypto.action)) || Has(opts, ModeKind))
    && ((a.key.Some? && KeyText(a.key.value, c)) || Has(opts, KeyKind))
    && (AlgoOf(a.algo) == Some(c.crypto.algo) || Has(opts, AlgoKind))
  }

  predicate TowardNumbers(a: Seen, opts: seq<Opt>, c: UserConfig) {
    && (a.port == c.crypto.udpPort || Has(opts, PortKind))
    && (a.statsInterval == c.statsInterval || Has(opts, StatsKind))
    && (a.duration == c.duration || Has(opts, DurationKind))
  }

  predicate TowardHooks(a: Seen, opts: seq<Opt>, c: UserConfig) {
    && (a.hook == c.hook || Has(opts, HookKind))
    && (a.tcAttach == c.tcAttach || Has(opts, AttachKind))
  }

  predicate TowardFlags(a: Seen, opts: seq<Opt>, c: UserConfig) {
    && (a.printEvents == c.printEvents || Has(opts, EventsKind) || Has(opts, JsonlKind))
    && (a.outputJsonl == c.outputJsonl || Has(opts, JsonlKind))
    && (a.flags == c.crypto.flags || Has(opts, TransparentKind))
  }

  /** What the loop does with one rendered option. */
  function Apply(a: Seen, o: Opt): Seen {
    match o
    case Iface(name) => a.(iface := Some(name))
    case Mode(action) => a.(mode := Some(ModeName(action)))
    case Key(hex) => a.(key := Some(hex))
    case Algo(algo) => a.(algo := AlgoName(algo))
    case Port(n) => a.(port := n)
    case StatsInterval(n) => a.(statsInterval := n)
    case Duration(n) => a.(duration := n)
    case Hook(h) => a.(hook := h)
    case Events => a.(printEvents := true)
    case Jsonl => a.(outputJsonl := true, printEvents := true)
    case Transparent => a.(flags := F_TRANSPARENT)
    case Ingress => a.(tcAttach := TC_ATTACH_INGRESS)
    case Egress => a.(tcAttach := TC_ATTACH_EGRESS)
  }

  lemma ValueTaken(a: Seen, o: Opt, c: UserConfig)
    requires Valid(c) && Says(o, c) && |Words(o)| == 2
    ensures TakesValue(Words(o)[0]) && TakeValue(a, Words(o)[0], Words(o)[1]) == Some(Apply(a, o))
  {
    hide TakesValue, TakeValue, Words;
    if o.Port? || o.StatsInterval? || o.Duration? {
      NumberTaken(a, o, c);
    } else {
      NameTaken(a, o, c);
    }
  }

  lemma NumberTaken(a: Seen, o: Opt, c: UserConfig)
    requires Valid(c) && Says(o, c) && (o.Port? || o.StatsInterval? || o.Duration?)
    ensures |Words(o)| == 2
    ensures TakesValue(Words(o)[0]) && TakeValue(a, Words(o)[0], Words(o)[1]) == Some(Apply(a, o))
  {
    hide ParseUint, Numeral;
    match o
    case Port(n) => ParseNumeral(n, 1, 65535);
    case StatsInterval(n) => ParseNumeral(n, 1, UINT_MAX);
    case Duration(n) => ParseNumeral(n, 1, UINT_MAX);
  }

  lemma NameTaken(a: Seen, o: Opt, c: UserConfig)
    requires Valid(c) && Says(o, c) && |Words(o)| == 2 && !o.Port? && !o.StatsInterval? && !o.Duration?
    ensures TakesValue(Words(o)[0]) && TakeValue(a, Words(o)[0], Words(o)[1]) == Some(Apply(a, o))
  {
    hide ParseUint, Numeral, KeyText;
  }

  lemma FlagTaken(a: Seen, o: Opt)
    requires |Words(o)| == 1
    ensures !TakesValue(Words(o)[0]) && TakeFlag(a, Words(o)[0]) == Some(Apply(a, o))
  {
  }

  lemma ScanOption(a: Seen, o: Opt, rest: seq<string>, c: UserConfig)
    requires Valid(c) && Says(o, c)
    ensures Scan(Words(o) + rest, a) == Scan(rest, Apply(a, o))
  {
    hide TakeValue, TakeFlag, TakesValue, Says, Apply;
    var args := Words(o) + rest;
    if |Words(o)| == 2 {
      ValueTaken(a, o, c);
      assert args[0] == Words(o)[0] && args[1] == Words(o)[1] && args[2..] == rest;
    } else {
      FlagTaken(a, o);
      assert args[0] == Words(o)[0] && args[1..] == rest;
    }
  }

  lemma NamesParse(c: UserConfig)
    requires Valid(c)
    ensures ActionOf(ModeName(c.crypto.action)) == Some(c.crypto.action)
    ensures AlgoOf(AlgoName(c.crypto.algo)) == Some(c.crypto.algo)
  {
  }

  lemma HasSplits(opts: seq<Opt>)
    requires opts != []
    ensures forall k {:trigger Has(opts, k)} :: Has(opts, k) <==> KindOf(opts[0]) == k || Has(opts[1..], k)
  {
  }

  // What an option does to the fields: it brings its own to the configuration's value and leaves the
  // others alone.

  lemma ApplyTexts(a: Seen, o: Opt, c: UserConfig)
    requires Valid(c) && Says(o, c)
    ensures var b, k := Apply(a, o), KindOf(o);
            && b.iface == (if k == IfaceKind then Some(c.iface) else a.iface)
            && (if k == ModeKind then b.mode.Some? && ActionOf(b.mode.value) == Some(c.crypto.action)
                else b.mode == a.mode)
            && (if k == KeyKind then b.key.Some? && KeyText(b.key.value, c) else b.key == a.key)
            && (if k == AlgoKind then AlgoOf(b.algo) == Some(c.crypto.algo) else b.algo == a.algo)
  {
    NamesParse(c);
    hide KeyText, ActionOf, AlgoOf, ModeName, AlgoName, Valid;
  }

  lemma ApplyNumbers(a: Seen, o: Opt, c: UserConfig)
    requires Says(o, c)
    ensures var b, k := Apply(a, o), KindOf(o);
            && b.port == (if k == PortKind then c.crypto.udpPort else a.port)
            && b.statsInterval == (if k == StatsKind then c.statsInterval else a.statsInterval)
            && b.duration == (if k == DurationKind then c.duration else a.duration)
  {
    hide KeyText, ModeName, AlgoName;
  }

  lemma ApplyHooks(a: Seen, o: Opt, c: UserConfig)
    requires Says(o, c)
    ensures var b, k := Apply(a, o), KindOf(o);
            && b.hook == (if k == HookKind then c.hook else a.hook)
            && b.tcAttach == (if k == AttachKind then c.tcAttach else a.tcAttach)
  {
    hide KeyText, ModeName, AlgoName;
  }

  lemma ApplyFlags(a: Seen, o: Opt, c: UserConfig)
    requires Valid(c) && Says(o, c)
    ensures var b, k := Apply(a, o), KindOf(o);
            && b.printEvents == (if k == EventsKind || k == JsonlKind then c.printEvents else a.printEvents)
            && b.outputJsonl == (if k == JsonlKind then c.outputJsonl else a.outputJsonl)
            && b.flags == (if k == TransparentKind then c.crypto.flags else a.flags)
  {
    hide KeyText, ModeName, AlgoName;
  }

  lemma ApplyMovesTexts(a: Seen, opts: seq<Opt>, c: UserConfig)
    requires opts != [] && Valid(c) && Says(opts[0], c) && TowardTexts(a, opts, c)
    ensures TowardTexts(Apply(a, opts[0]), opts[1..], c)
  {
    ApplyTexts(a, opts[0], c);
    HasSplits(opts);
    hide KeyText, ActionOf, AlgoOf, Valid, Has, Apply, Says, KindOf;
  }

  lemma ApplyMovesNumbers(a: Seen, opts: seq<Opt>, c: UserConfig)
    requires opts != [] && Says(opts[0], c) && TowardNumbers(a, opts, c)
    ensures TowardNumbers(Apply(a, opts[0]), opts[1..], c)
  {
    ApplyNumbers(a, opts[0], c);
    HasSplits(opts);
    hide Has, Apply, Says, KindOf;
  }

  lemma ApplyMovesHooks(a: Seen, opts: seq<Opt>, c: UserConfig)
    requires opts != [] && Says(opts[0], c) && TowardHooks(a, opts, c)
    ensures TowardHooks(Apply(a, opts[0]), opts[1..], c)
  {
    ApplyHooks(a, opts[0], c);
    HasSplits(opts);
    hide Has, Apply, Says, KindOf;
  }

  lemma ApplyMovesFlags(a: Seen, opts: seq<Opt>, c: UserConfig)
    requires opts != [] && Valid(c) && Says(opts[0], c) && TowardFlags(a, opts, c)
    ensures TowardFlags(Apply(a, opts[0]), opts[1..], c)
  {
    ApplyFlags(a, opts[0], c);
    HasSplits(opts);
    hide Has, Apply, Says, KindOf, Valid;
  }

  lemma ApplyMovesToward(a: Seen, opts: seq<Opt>, c: UserConfig)
    requires opts != [] && Valid(c) && Says(opts[0], c) && Toward(a, opts, c)
    ensures Toward(Apply(a, opts[0]), opts[1..], c)
  {
    hide TowardTexts, TowardNumbers, TowardHooks, TowardFlags, Apply, Says, Valid;
    ApplyMovesTexts(a, opts, c);
    ApplyMovesNumbers(a, opts, c);
    ApplyMovesHooks(a, opts, c);
    ApplyMovesFlags(a, opts, c);
  }

  lemma {:induction false} ScanRendered(a: Seen, opts: seq<Opt>, c: UserConfig)
    requires Valid(c) && Toward(a, opts, c)
    requires forall o :: o in opts ==> Says(o, c)
    ensures Scan(Render(opts), a).Some? && Toward(Scan(Render(opts), a).value, [], c)
    decreases |opts|
  {
    hide Says, Toward, Apply, Words;
    if opts != [] {
      assert Says(opts[0], c);
      ApplyMovesToward(a, opts, c);
      ScanOption(a, opts[0], Render(opts[1..]), c);
      ScanRendered(Apply(a, opts[0]), opts[1..], c);
    }
  }

  lemma Arrived(a: Seen, c: UserConfig)
    requires Valid(c) && Toward(a, [], c)
    ensures Conclude(a) == Some(c)
  {
  }

  /** Any options that state a valid configuration, in any order and however often, parse back to
      it. */
  lemma RenderedParsesBack(program: string, opts: seq<Opt>, c: UserConfig)
    requires Valid(c) && Covers(opts, c)
    requires forall o :: o in opts ==> Says(o, c)
    ensures ParseArgs([program] + Render(opts)) == Some(c)
  {
    hide Scan, Conclude;
    assert ([program] + Render(opts))[1..] == Render(opts);
    assert Toward(NOTHING_SEEN, opts, c);
    ScanRendered(NOTHING_SEEN, opts, c);
    Arrived(Scan(Render(opts), NOTHING_SEEN).value, c);
  }

  /** A command line that states everything: the options that are always there, and those for the
      fields that a flag or a positive duration states. */
  function AllOptions(c: UserConfig): seq<Opt>
    requires c.crypto.keyLen <= MAX_KEY_BYTES
  {
    FixedOptions(c) + FlagOptions(c) + AttachOptions(c)
  }

  function FixedOptions(c: UserConfig): seq<Opt>
    requires c.crypto.keyLen <= MAX_KEY_BYTES
  {
    [Iface(c.iface), Mode(c.crypto.action), Key(Print(c.crypto.key[..c.crypto.keyLen])), Algo(c.crypto.algo),
     Port(c.crypto.udpPort), StatsInterval(c.statsInterval), Hook(c.hook)]
  }

  function When(b: bool, o: Opt): seq<Opt> {
    if b then [o] else []
  }

  function FlagOptions(c: UserConfig): seq<Opt> {
    When(c.printEvents, Events) + When(c.outputJsonl, Jsonl) + When(c.crypto.flags == F_TRANSPARENT, Transparent)
  }

  function AttachOptions(c: UserConfig): seq<Opt> {
    When(c.duration > 0, Duration(c.duration))
    + When(c.tcAttach == TC_ATTACH_INGRESS, Ingress) + When(c.tcAttach == TC_ATTACH_EGRESS, Egress)
  }

  lemma FixedSay(c: UserConfig, o: Opt)
    requires c.crypto.keyLen <= MAX_KEY_BYTES && o in FixedOptions(c)
    requires KeyText(Print(c.crypto.key[..c.crypto.keyLen]), c)
    ensures Says(o, c)
  {
    hide KeyText, Print;
  }

  lemma FlagSay(c: UserConfig, o: Opt)
    requires o in FlagOptions(c) || o in AttachOptions(c)
    ensures Says(o, c)
  {
    hide KeyText;
  }

  lemma AllOptionsSay(c: UserConfig, o: Opt)
    requires Valid(c)
    requires c.crypto.keyLen <= MAX_KEY_BYTES && o in AllOptions(c)
    ensures Says(o, c)
  {
    hide KeyText, Print, Valid, Says, FixedOptions, FlagOptions, AttachOptions;
    OwnKeyText(c);
    if o in FixedOptions(c) {
      FixedSay(c, o);
    } else {
      FlagSay(c, o);
    }
  }

  lemma {:induction false} HasMember(opts: seq<Opt>, o: Opt)
    requires o in opts
    ensures Has(opts, KindOf(o))
    decreases |opts|
  {
    hide KindOf;
    if opts[0] != o {
      HasMember(opts[1..], o);
    }
  }

  lemma OwnKeyText(c: UserConfig)
    requires Valid(c)
    ensures KeyText(Print(c.crypto.key[..c.crypto.keyLen]), c)
  {
    hide Print, Parse, IsHex;
    var k := c.crypto.key[..c.crypto.keyLen];
    ParsePrint(k);
    assert KeyFieldOf(k) == c.crypto.key;
  }

  lemma AllOptionsCover(c: UserConfig)
    requires Valid(c)
    ensures Covers(AllOptions(c), c)
    ensures forall o :: o in AllOptions(c) ==> Says(o, c)
  {
    hide KeyText, Has, Print, Says, Valid, AllOptions;
    ValidDefaults(c);
    var opts := AllOptions(c);
    forall o | o in opts
      ensures Has(opts, KindOf(o)) && Says(o, c)
    {
      HasMember(opts, o);
      AllOptionsSay(c, o);
    }
    FixedMembers(c);
    FlagMembers(c);
  }

  lemma FixedMembers(c: UserConfig)
    requires c.crypto.keyLen <= MAX_KEY_BYTES
    ensures var opts := AllOptions(c);
            && Iface(c.iface) in opts && Mode(c.crypto.action) in opts && Algo(c.crypto.algo) in opts
            && Key(Print(c.crypto.key[..c.crypto.keyLen])) in opts
            && Port(c.crypto.udpPort) in opts && StatsInterval(c.statsInterval) in opts && Hook(c.hook) in opts
  {
    hide Print, FlagOptions, AttachOptions;
    var f := FixedOptions(c);
    assert f[0] in f && f[1] in f && f[2] in f && f[3] in f && f[4] in f && f[5] in f && f[6] in f;
  }

  lemma FlagMembers(c: UserConfig)
    requires c.crypto.keyLen <= MAX_KEY_BYTES
    ensures var opts := AllOptions(c);
            && (c.duration > 0 ==> Duration(c.duration) in opts)
            && (c.printEvents ==> Events in opts) && (c.outputJsonl ==> Jsonl in opts)
            && (c.crypto.flags == F_TRANSPARENT ==> Transparent in opts)
            && (c.tcAttach == TC_ATTACH_INGRESS ==> Ingress in opts)
            && (c.tcAttach == TC_ATTACH_EGRESS ==> Egress in opts)
  {
    hide FixedOptions;
  }

  lemma ValidDefaults(c: UserConfig)
    requires Valid(c)
    ensures c.crypto.keyLen <= MAX_KEY_BYTES
    ensures c.crypto.flags == 0 || c.crypto.flags == F_TRANSPARENT
    ensures c.tcAttach == TC_ATTACH_AUTO || c.tcAttach == TC_ATTACH_INGRESS || c.tcAttach == TC_ATTACH_EGRESS
  {
  }

  /** The parser reaches exactly the valid configurations. */
  lemma ValidIffParsed(c: UserConfig)
    ensures Valid(c) <==> exists argv :: ParseArgs(argv) == Some(c)
  {
    hide ParseArgs, Covers, Says, AllOptions, Render;
    if Valid(c) {
      AllOptionsCover(c);
      RenderedParsesBack("ebaf-crypto", AllOptions(c), c);
    }
    if argv :| ParseArgs(argv) == Some(c) {
      AcceptedIsValid(argv);
    }
  }
}
