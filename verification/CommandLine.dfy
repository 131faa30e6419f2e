/** What a command line means, told without the parser: its arguments read as options, the last one
    of a kind winning, and the numbers as the text of a decimal. The parser of `Config` accepts
    exactly the command lines that have a meaning, and gives exactly that meaning. */
module CommandLine {
  import opened Bytes
  import opened Layout
  import opened Hex
  import opened Config

  // ----- Numbers ------------------------------------------------------------------------------

  predicate AllDigits(s: string) {
    forall i :: 0 <= i < |s| ==> '0' <= s[i] <= '9'
  }

  predicate AllBlank(s: string) {
    forall i :: 0 <= i < |s| ==> s[i] == ' ' || '\t' <= s[i] <= '\r'
  }

  predicate IsSign(s: string) {
    s == "" || s == "+" || s == "-"
  }

  /** The text is blanks, an optional sign and decimal digits to the end; `x` is its value, a negative
      one modulo 2^64. */
  predicate Reads(text: string, blanks: string, sign: string, digits: string, x: nat) {
    && text == blanks + sign + digits && AllBlank(blanks) && IsSign(sign)
    && digits != [] && AllDigits(digits) && Decimal(digits) < 0x1_0000_0000_0000_0000
    && x == if sign == "-" && Decimal(digits) > 0 then 0x1_0000_0000_0000_0000 - Decimal(digits) else Decimal(digits)
  }

  lemma {:induction false} SkipsBlanks(s: string, i: nat, k: nat)
    requires i <= k <= |s| && AllBlank(s[i..k]) && (k < |s| ==> !IsSpace(s[k]))
    ensures SkipSpaces(s, i) == k
    decreases k - i
  {
    if i < k {
      assert s[i] == s[i..k][0];
      assert s[i + 1..k] == s[i..k][1..];
      SkipsBlanks(s, i + 1, k);
    }
  }

  lemma {:induction false} BlanksSkipped(s: string, i: nat)
    requires i <= |s|
    ensures AllBlank(s[i..SkipSpaces(s, i)])
    ensures SkipSpaces(s, i) < |s| ==> !IsSpace(s[SkipSpaces(s, i)])
    decreases |s| - i
  {
    if i < |s| && IsSpace(s[i]) {
      BlanksSkipped(s, i + 1);
      assert s[i..SkipSpaces(s, i)] == [s[i]] + s[i + 1..SkipSpaces(s, i)];
    }
  }

  lemma {:induction false} SkipsDigits(s: string, i: nat)
    requires i <= |s| && AllDigits(s[i..])
    ensures SkipDigits(s, i) == |s|
    decreases |s| - i
  {
    if i < |s| {
      assert s[i] == s[i..][0] && s[i + 1..] == s[i..][1..];
      SkipsDigits(s, i + 1);
    }
  }

  /** A number is accepted exactly when the text reads as one in the range. */
  lemma ParseUintMeans(text: string, min: nat, max: nat, x: nat)
    requires max <= 0xFFFF_FFFF
    ensures ParseUint(text, min, max) == Some(x)
            <==> min <= x <= max && exists blanks, sign, digits :: Reads(text, blanks, sign, digits, x)
  {
    if ParseUint(text, min, max) == Some(x) {
      AcceptedReads(text, min, max);
    }
    if blanks, sign, digits :| min <= x <= max && Reads(text, blanks, sign, digits, x) {
      ReadIsAccepted(text, min, max, blanks, sign, digits, x);
    }
  }

  /** Where the digits of an accepted number start. */
  function DigitsFrom(text: string): nat {
    var i := SkipSpaces(text, 0);
    if i < |text| && (text[i] == '+' || text[i] == '-') then i + 1 else i
  }

  lemma DigitsToTheEnd(text: string)
    requires text != "" && Strtoul(text).end == |text|
    ensures var i, from := SkipSpaces(text, 0), DigitsFrom(text);
            && from < |text| == SkipDigits(text, from)
            && (from == i || (from == i + 1 && (text[i] == '+' || text[i] == '-')))
  {
    hide Decimal, SkipSpaces, SkipDigits;
  }

  lemma DigitsBehind(text: string, from: nat)
    requires from <= |text| && SkipDigits(text, from) == |text|
    ensures AllDigits(text[from..])
  {
    hide SkipDigits;
  }

  lemma ValueToTheEnd(text: string)
    requires !Strtoul(text).range && DigitsFrom(text) < |text| && SkipDigits(text, DigitsFrom(text)) == |text|
    requires AllDigits(text[DigitsFrom(text)..])
    ensures var i, from, x := SkipSpaces(text, 0), DigitsFrom(text), Strtoul(text).value;
            && Decimal(text[from..]) < 0x1_0000_0000_0000_0000
            && x == (if from > i && text[i] == '-' && Decimal(text[from..]) > 0
                     then 0x1_0000_0000_0000_0000 - Decimal(text[from..]) else Decimal(text[from..]))
  {
    var from := DigitsFrom(text);
    assert text[from..|text|] == text[from..];
    hide Decimal, SkipSpaces, SkipDigits, AllDigits;
  }

  lemma AcceptedParts(text: string, min: nat, max: nat)
    requires ParseUint(text, min, max).Some? && max <= 0xFFFF_FFFF
    ensures text != "" && Strtoul(text).end == |text| && !Strtoul(text).range
    ensures ParseUint(text, min, max).value == Strtoul(text).value
  {
    hide Strtoul;
  }

  lemma AcceptedReads(text: string, min: nat, max: nat)
    requires ParseUint(text, min, max).Some? && max <= 0xFFFF_FFFF
    ensures exists blanks, sign, digits :: Reads(text, blanks, sign, digits, ParseUint(text, min, max).value)
  {
    hide ParseUint, Strtoul, SkipSpaces, SkipDigits, DigitsFrom, Decimal, AllBlank, AllDigits;
    BlanksSkipped(text, 0);
    AcceptedParts(text, min, max);
    DigitsToTheEnd(text);
    DigitsBehind(text, DigitsFrom(text));
    ValueToTheEnd(text);
    var i, from := SkipSpaces(text, 0), DigitsFrom(text);
    assert text == text[0..i] + text[i..from] + text[from..];
    SignIs(text, i, from);
    hide IsSign;
    assert Reads(text, text[0..i], text[i..from], text[from..], ParseUint(text, min, max).value);
  }

  lemma SignIs(text: string, i: nat, from: nat)
    requires i <= from <= |text| && (from == i || (from == i + 1 && (text[i] == '+' || text[i] == '-')))
    ensures IsSign(text[i..from])
    ensures text[i..from] == "-" <==> from > i && text[i] == '-'
  {
    if from > i {
      assert text[i..from] == [text[i]];
    }
  }

  lemma ReadIsAccepted(text: string, min: nat, max: nat, blanks: string, sign: string, digits: string, x: nat)
    requires max <= 0xFFFF_FFFF && min <= x <= max && Reads(text, blanks, sign, digits, x)
    ensures ParseUint(text, min, max) == Some(x)
  {
    var k := |blanks|;
    var from := k + |sign|;
    assert text[0..k] == blanks && text[from..] == digits;
    assert text[from] == digits[0];
    if sign != "" {
      assert text[k] == sign[0];
    }
    SkipsBlanks(text, 0, k);
    SkipsDigits(text, from);
    assert text[from..|text|] == digits;
  }

  // ----- Options ------------------------------------------------------------------------------

  /** One option as it stands on the command line. */
  datatype Said = Said(name: string, value: Option<string>)

  predicate NeedsValue(name: string) {
    || name == "--iface" || name == "--mode" || name == "--key" || name == "--algo" || name == "--port"
    || name == "--stats-interval" || name == "--duration" || name == "--hook"
  }

  /** The arguments as options: those that need a value take the next argument, if there is one. */
  function Options(args: seq<string>): (opts: seq<Said>)
    decreases |args|
  {
    if args == [] then []
    else if NeedsValue(args[0]) && |args| > 1 then [Said(args[0], Some(args[1]))] + Options(args[2..])
    else [Said(args[0], None)] + Options(args[1..])
  }

  predicate InRangeText(text: string, max: nat) {
    ParseUint(text, 1, max).Some?
  }

  /** The option is known, and its value can be read by itself. */
  predicate Understood(s: Said) {
    match s.value
    case None =>
      || s.name == "--events" || s.name == "--jsonl" || s.name == "--transparent"
      || s.name == "--tc-ingress" || s.name == "--tc-egress"
    case Some(v) =>
      || s.name == "--iface" || s.name == "--mode" || s.name == "--key" || s.name == "--algo"
      || (s.name == "--port" && InRangeText(v, 65535))
      || (s.name == "--stats-interval" && InRangeText(v, 0xFFFF_FFFF))
      || (s.name == "--duration" && InRangeText(v, 0xFFFF_FFFF))
      || (s.name == "--hook" && (v == "xdp" || v == "tc" || v == "both"))
  }

  predicate AllUnderstood(opts: seq<Said>) {
    forall s :: s in opts ==> Understood(s)
  }

  /** The value of the last option called `name`. */
  function LastValue(opts: seq<Said>, name: string): Option<string>
    decreases |opts|
  {
    if opts == [] then None else
    var later := LastValue(opts[1..], name);
    if later.Some? then later else if opts[0].name == name then opts[0].value else None
  }

  predicate Mentions(opts: seq<Said>, name: string) {
    exists s :: s in opts && s.name == name
  }

  /** The last of the two options that choose a TC attach point. */
  function LastAttach(opts: seq<Said>): Option<string>
    decreases |opts|
  {
    if opts == [] then None else
    var later := LastAttach(opts[1..]);
    if later.Some? then later
    else if opts[0].name == "--tc-ingress" || opts[0].name == "--tc-egress" then Some(opts[0].name) else None
  }

  function Or<T>(x: Option<T>, default: T): T {
    if x.Some? then x.value else default
  }

  function NumberOf(text: string, max: nat): nat {
    Or(ParseUint(text, 1, max), 0)
  }

  // ----- The meaning --------------------------------------------------------------------------

  /** The name, the value it stands for: one of a list. */
  predicate Named(text: string, name: string, value: int, code: int) {
    text == name && value == code
  }

  predicate MeansCrypto(opts: seq<Said>, c: CryptoConfig) {
    && LastValue(opts, "--mode").Some? && LastValue(opts, "--key").Some?
    && var mode, key := LastValue(opts, "--mode").value, LastValue(opts, "--key").value;
       var algo := Or(LastValue(opts, "--algo"), "cbc-aes");
       && (Named(mode, "encrypt", c.action, 1) || Named(mode, "decrypt", c.action, 2))
       && ((Named(algo, "cbc-aes", c.algo, 1) && c.keyLen == 16)
           || (Named(algo, "chacha20", c.algo, 2) && c.keyLen == 32))
       && |key| == 2 * c.keyLen && Print(c.key[..c.keyLen]) == Lowered(key)
       && (forall i :: c.keyLen <= i < 32 ==> c.key[i] == 0)
       && c.udpPort == (if LastValue(opts, "--port").None? then 7777
                        else NumberOf(LastValue(opts, "--port").value, 65535))
       && c.flags == (if Mentions(opts, "--transparent") then 1 else 0)
  }

  predicate MeansRest(opts: seq<Said>, c: UserConfig) {
    && LastValue(opts, "--iface") == Some(c.iface) && |c.iface| < 64
    && var hook, attach := Or(LastValue(opts, "--hook"), "xdp"), LastAttach(opts);
       && (Named(hook, "xdp", c.hook, 1) || Named(hook, "tc", c.hook, 2) || Named(hook, "both", c.hook, 3))
       && c.tcAttach == (if attach.None? then 0 else if attach.value == "--tc-ingress" then 1 else 2)
       && c.statsInterval == (if LastValue(opts, "--stats-interval").None? then 1
                              else NumberOf(LastValue(opts, "--stats-interval").value, 0xFFFF_FFFF))
       && c.duration == (if LastValue(opts, "--duration").None? then 0
                         else NumberOf(LastValue(opts, "--duration").value, 0xFFFF_FFFF))
       && (c.printEvents <==> Mentions(opts, "--events") || Mentions(opts, "--jsonl"))
       && (c.outputJsonl <==> Mentions(opts, "--jsonl"))
  }

  /** A command line means a configuration. */
  predicate Means(opts: seq<Said>, c: UserConfig) {
    AllUnderstood(opts) && MeansCrypto(opts, c.crypto) && MeansRest(opts, c)
  }

  // ----- What the option loop collects --------------------------------------------------------

  function HookCode(text: string): nat {
    if text == "xdp" then 1 else if text == "tc" then 2 else 3
  }

  predicate CollectsTexts(opts: seq<Said>, a: Seen, b: Seen) {
    && b.iface == (if LastValue(opts, "--iface").Some? then LastValue(opts, "--iface") else a.iface)
    && b.mode == (if LastValue(opts, "--mode").Some? then LastValue(opts, "--mode") else a.mode)
    && b.key == (if LastValue(opts, "--key").Some? then LastValue(opts, "--key") else a.key)
    && b.algo == Or(LastValue(opts, "--algo"), a.algo)
  }

  predicate CollectsNumbers(opts: seq<Said>, a: Seen, b: Seen) {
    && b.port == (var v := LastValue(opts, "--port"); if v.None? then a.port else NumberOf(v.value, 65535))
    && b.statsInterval == (var v := LastValue(opts, "--stats-interval");
                           if v.None? then a.statsInterval else NumberOf(v.value, 0xFFFF_FFFF))
    && b.duration == (var v := LastValue(opts, "--duration");
                      if v.None? then a.duration else NumberOf(v.value, 0xFFFF_FFFF))
  }

  predicate CollectsHooks(opts: seq<Said>, a: Seen, b: Seen) {
    && b.hook == (var v := LastValue(opts, "--hook"); if v.None? then a.hook else HookCode(v.value))
    && b.tcAttach == (var v := LastAttach(opts);
                      if v.None? then a.tcAttach else if v.value == "--tc-ingress" then 1 else 2)
  }

  predicate CollectsFlags(opts: seq<Said>, a: Seen, b: Seen) {
    && (b.printEvents <==> a.printEvents || Mentions(opts, "--events") || Mentions(opts, "--jsonl"))
    && (b.outputJsonl <==> a.outputJsonl || Mentions(opts, "--jsonl"))
    && b.flags == (if Mentions(opts, "--transparent") then 1 else a.flags)
  }

  predicate Collects(opts: seq<Said>, a: Seen, b: Seen) {
    CollectsTexts(opts, a, b) && CollectsNumbers(opts, a, b) && CollectsHooks(opts, a, b) && CollectsFlags(opts, a, b)
  }

  function TakeOne(a: Seen, s: Said): Option<Seen> {
    if s.value.Some? then TakeValue(a, s.name, s.value.value) else TakeFlag(a, s.name)
  }

  lemma ValueUnderstood(a: Seen, name: string, v: string)
    requires NeedsValue(name)
    ensures TakeValue(a, name, v).Some? <==> Understood(Said(name, Some(v)))
  {
    hide ParseUint;
  }

  lemma FlagUnderstood(a: Seen, name: string)
    ensures TakeFlag(a, name).Some? <==> Understood(Said(name, None))
  {
  }

  lemma NeedsTakes(name: string)
    ensures NeedsValue(name) <==> TakesValue(name)
  {
  }

  lemma OneTexts(a: Seen, s: Said)
    requires TakeOne(a, s).Some?
    ensures CollectsTexts([s], a, TakeOne(a, s).value)
  {
    LastOfOne(s, "--iface");
    LastOfOne(s, "--mode");
    LastOfOne(s, "--key");
    LastOfOne(s, "--algo");
    hide LastValue, TakeValue, TakeFlag;
    if s.value.Some? {
      TextsOfValue(a, s.name, s.value.value);
    } else {
      TextsOfFlag(a, s.name);
    }
  }

  lemma TextsOfValue(a: Seen, name: string, v: string)
    requires TakeValue(a, name, v).Some?
    ensures var b := TakeValue(a, name, v).value;
            && b.iface == (if name == "--iface" then Some(v) else a.iface)
            && b.mode == (if name == "--mode" then Some(v) else a.mode)
            && b.key == (if name == "--key" then Some(v) else a.key)
            && b.algo == (if name == "--algo" then v else a.algo)
  {
    hide ParseUint, HookOf;
  }

  lemma TextsOfFlag(a: Seen, name: string)
    requires TakeFlag(a, name).Some?
    ensures var b := TakeFlag(a, name).value;
            && b.iface == a.iface && b.mode == a.mode && b.key == a.key && b.algo == a.algo
            && name != "--iface" && name != "--mode" && name != "--key" && name != "--algo"
  {
  }

  lemma OneNumbers(a: Seen, s: Said)
    requires TakeOne(a, s).Some?
    ensures CollectsNumbers([s], a, TakeOne(a, s).value)
  {
    LastOfOne(s, "--port");
    LastOfOne(s, "--stats-interval");
    LastOfOne(s, "--duration");
    hide LastValue, ParseUint, HookOf;
  }

  lemma OneHooks(a: Seen, s: Said)
    requires TakeOne(a, s).Some?
    ensures CollectsHooks([s], a, TakeOne(a, s).value)
  {
    LastOfOne(s, "--hook");
    assert [s][1..] == [];
    assert LastAttach([s]) == if s.name == "--tc-ingress" || s.name == "--tc-egress" then Some(s.name) else None;
    hide LastValue, LastAttach, ParseUint;
  }

  lemma OneFlags(a: Seen, s: Said)
    requires TakeOne(a, s).Some?
    ensures CollectsFlags([s], a, TakeOne(a, s).value)
  {
    assert s in [s];
    assert forall t :: t in [s] ==> t == s;
    assert forall name :: Mentions([s], name) <==> s.name == name;
    hide Mentions, ParseUint, HookOf;
  }

  lemma LastOfOne(s: Said, name: string)
    ensures LastValue([s], name) == if s.name == name then s.value else None
  {
    assert [s][1..] == [];
  }

  lemma LastSplits(s: Said, rest: seq<Said>, name: string)
    ensures LastValue([s] + rest, name)
         == if LastValue(rest, name).Some? then LastValue(rest, name) else LastValue([s], name)
  {
    assert ([s] + rest)[1..] == rest;
    LastOfOne(s, name);
  }

  lemma AttachSplits(s: Said, rest: seq<Said>)
    ensures LastAttach([s] + rest) == if LastAttach(rest).Some? then LastAttach(rest) else LastAttach([s])
  {
    assert ([s] + rest)[1..] == rest && [s][1..] == [];
  }

  lemma MentionsSplits(s: Said, rest: seq<Said>, name: string)
    ensures Mentions([s] + rest, name) <==> Mentions([s], name) || Mentions(rest, name)
  {
    assert s in [s];
    assert forall t :: t in [s] + rest <==> t in [s] || t in rest;
  }

  lemma Compose(s: Said, rest: seq<Said>, a: Seen, b: Seen, c: Seen)
    requires Collects([s], a, b) && Collects(rest, b, c)
    ensures Collects([s] + rest, a, c)
  {
    ComposeValues(s, rest, a, b, c);
    AttachSplits(s, rest);
    MentionsSplits(s, rest, "--events");
    MentionsSplits(s, rest, "--jsonl");
    MentionsSplits(s, rest, "--transparent");
    LastSplits(s, rest, "--hook");
    hide LastValue, LastAttach, Mentions, CollectsTexts, CollectsNumbers, HookCode;
  }

  lemma ComposeValues(s: Said, rest: seq<Said>, a: Seen, b: Seen, c: Seen)
    requires CollectsTexts([s], a, b) && CollectsTexts(rest, b, c)
    requires CollectsNumbers([s], a, b) && CollectsNumbers(rest, b, c)
    ensures CollectsTexts([s] + rest, a, c) && CollectsNumbers([s] + rest, a, c)
  {
    LastSplits(s, rest, "--iface");
    LastSplits(s, rest, "--mode");
    LastSplits(s, rest, "--key");
    LastSplits(s, rest, "--algo");
    LastSplits(s, rest, "--port");
    LastSplits(s, rest, "--stats-interval");
    LastSplits(s, rest, "--duration");
    hide LastValue, NumberOf;
  }

  lemma CollectsNothing(a: Seen)
    ensures Collects([], a, a)
  {
  }

  lemma OneCollected(a: Seen, s: Said)
    requires TakeOne(a, s).Some?
    ensures Collects([s], a, TakeOne(a, s).value)
  {
    hide *;
    OneTexts(a, s);
    OneNumbers(a, s);
    OneHooks(a, s);
    OneFlags(a, s);
    CollectsFrom([s], a, TakeOne(a, s).value);
  }

  lemma CollectsFrom(opts: seq<Said>, a: Seen, b: Seen)
    requires CollectsTexts(opts, a, b) && CollectsNumbers(opts, a, b)
    requires CollectsHooks(opts, a, b) && CollectsFlags(opts, a, b)
    ensures Collects(opts, a, b)
  {
  }

  /** The next option of a non-empty command line, and the arguments behind it. */
  function Next(args: seq<string>): (Said, seq<string>)
    requires args != []
  {
    if NeedsValue(args[0]) && |args| > 1 then (Said(args[0], Some(args[1])), args[2..])
    else (Said(args[0], None), args[1..])
  }

  lemma ScanNext(args: seq<string>, a: Seen)
    requires args != []
    ensures var (s, rest) := Next(args);
            && |rest| < |args| && Options(args) == [s] + Options(rest)
            && (TakeOne(a, s).Some? <==> Understood(s))
            && Scan(args, a) == if TakeOne(a, s).None? then None else Scan(rest, TakeOne(a, s).value)
  {
    NeedsTakes(args[0]);
    var (s, _) := Next(args);
    if s.value.Some? {
      ValueUnderstood(a, s.name, s.value.value);
    } else {
      FlagUnderstood(a, s.name);
    }
    hide NeedsValue, TakesValue, TakeValue, TakeFlag, Understood;
  }

  /** The loop goes through exactly when every option is understood, and collects the last of each. */
  lemma {:induction false} ScanMeans(args: seq<string>, a: Seen)
    ensures Scan(args, a).Some? <==> AllUnderstood(Options(args))
    ensures Scan(args, a).Some? ==> Collects(Options(args), a, Scan(args, a).value)
    decreases |args|
  {
    if args == [] {
      CollectsNothing(a);
    } else {
      hide Scan, Options, TakeOne, Understood, Collects, Next;
      ScanNext(args, a);
      var (s, rest) := Next(args);
      assert AllUnderstood([s] + Options(rest)) <==> Understood(s) && AllUnderstood(Options(rest)) by {
        assert s in [s] + Options(rest);
        assert forall t :: t in [s] + Options(rest) <==> t == s || t in Options(rest);
      }
      if TakeOne(a, s).Some? {
        var b := TakeOne(a, s).value;
        OneCollected(a, s);
        ScanMeans(rest, b);
        if Scan(rest, b).Some? {
          Compose(s, Options(rest), a, b, Scan(rest, b).value);
        }
      }
    }
  }

  // ----- The configuration --------------------------------------------------------------------

  lemma LowerKeepsValue(c: char)
    ensures HexValue(Lower(c)) == HexValue(c)
  {
  }

  lemma {:induction false} LoweredParses(s: string)
    requires IsHex(s)
    ensures IsHex(Lowered(s)) && Parse(Lowered(s)) == Parse(s)
    decreases |s|
  {
    hide *;
    if s == [] {
      NothingRoundTrips();
    } else {
      var k := |s| - 2;
      HexSplits(s);
      LoweredParses(s[..k]);
      LowerKeepsValue(s[k]);
      LowerKeepsValue(s[k + 1]);
      ParseTwoMore(Lowered(s[..k]), Lower(s[k]), Lower(s[k + 1]));
      ParseTwoMore(s[..k], s[k], s[k + 1]);
      assert s == s[..k] + [s[k], s[k + 1]];
    }
  }

  lemma UnLoweredIsHex(s: string)
    requires IsHex(Lowered(s))
    ensures IsHex(s)
  {
    forall i | 0 <= i < |s|
      ensures HexValue(s[i]) >= 0
    {
      LowerKeepsValue(s[i]);
      assert HexValue(Lowered(s)[i]) >= 0;
    }
  }

  /** A text is that of `b` when it prints to it, but for upper-case letters. */
  lemma KeyTextMeans(text: string, b: bytes)
    ensures Print(b) == Lowered(text) <==> IsHex(text) && Parse(text) == b
  {
    ParsePrint(b);
    if Print(b) == Lowered(text) {
      UnLoweredIsHex(text);
      LoweredParses(text);
    }
    if IsHex(text) {
      PrintParse(text);
    }
    hide Print, Parse, IsHex, Lowered;
  }

  lemma KeyFieldMeans(text: string, n: nat, key: KeyField)
    requires n <= 32
    ensures |text| == 2 * n && IsHex(text) && KeyFieldOf(Parse(text)) == key
            <==> |text| == 2 * n && Print(key[..n]) == Lowered(text) && forall i :: n <= i < 32 ==> key[i] == 0
  {
    KeyTextMeans(text, key[..n]);
    hide Print, Parse, IsHex, Lowered;
    if |text| == 2 * n && IsHex(text) {
      KeyFieldSplits(Parse(text), key);
    }
    hide KeyFieldOf;
  }

  lemma KeyFieldSplits(k: bytes, key: KeyField)
    requires |k| <= 32
    ensures KeyFieldOf(k) == key <==> key[..|k|] == k && forall i :: |k| <= i < 32 ==> key[i] == 0
  {
    assert key == key[..|k|] + key[|k|..];
    if forall i :: |k| <= i < 32 ==> key[i] == 0 {
      assert key[|k|..] == Repeat(0, 32 - |k|);
    }
  }

  lemma NamesMean(mode: string, algo: string, c: CryptoConfig)
    ensures ActionOf(mode) == Some(c.action)
            <==> Named(mode, "encrypt", c.action, 1) || Named(mode, "decrypt", c.action, 2)
    ensures AlgoOf(algo) == Some(c.algo) && KeyLen(c.algo) == c.keyLen
            <==> (Named(algo, "cbc-aes", c.algo, 1) && c.keyLen == 16)
                 || (Named(algo, "chacha20", c.algo, 2) && c.keyLen == 32)
    ensures ActionOf(mode).Some? && AlgoOf(algo).Some? ==> KeyLen(AlgoOf(algo).value) in {16, 32}
  {
  }

  /** What the checks after the loop make of what it collected. */
  predicate Concludes(b: Seen, c: UserConfig) {
    && b.iface == Some(c.iface) && |c.iface| < 64 && b.mode.Some? && b.key.Some?
    && (Named(b.mode.value, "encrypt", c.crypto.action, 1) || Named(b.mode.value, "decrypt", c.crypto.action, 2))
    && ((Named(b.algo, "cbc-aes", c.crypto.algo, 1) && c.crypto.keyLen == 16)
        || (Named(b.algo, "chacha20", c.crypto.algo, 2) && c.crypto.keyLen == 32))
    && |b.key.value| == 2 * c.crypto.keyLen && Print(c.crypto.key[..c.crypto.keyLen]) == Lowered(b.key.value)
    && (forall i :: c.crypto.keyLen <= i < 32 ==> c.crypto.key[i] == 0)
    && c.crypto.flags == b.flags && c.crypto.udpPort == b.port && c.hook == b.hook && c.tcAttach == b.tcAttach
    && c.statsInterval == b.statsInterval && c.duration == b.duration
    && c.printEvents == b.printEvents && c.outputJsonl == b.outputJsonl
  }

  lemma ConcludeMeans(b: Seen, c: UserConfig)
    requires InRange(b)
    ensures Conclude(b) == Some(c) <==> Concludes(b, c)
  {
    hide Print, Parse, IsHex, Lowered, KeyFieldOf, Named, ActionOf, AlgoOf, KeyLen;
    if b.key.Some? && b.mode.Some? {
      KeyFieldMeans(b.key.value, 16, c.crypto.key);
      KeyFieldMeans(b.key.value, 32, c.crypto.key);
      NamesMean(b.mode.value, b.algo, c.crypto);
    }
  }

  /** The parser accepts a command line exactly when it means a configuration, and gives that one. */
  lemma ParseArgsMeans(argv: seq<string>, c: UserConfig)
    ensures ParseArgs(argv) == Some(c) <==> Means(Options(if argv == [] then [] else argv[1..]), c)
  {
    hide Scan, Conclude, Options;
    var args := if argv == [] then [] else argv[1..];
    ScanMeans(args, NOTHING_SEEN);
    ScanKeepsRange(args, NOTHING_SEEN);
    if Scan(args, NOTHING_SEEN).Some? {
      var b := Scan(args, NOTHING_SEEN).value;
      ConcludeMeans(b, c);
      MeansWhatIsCollected(Options(args), b, c);
    }
  }

  lemma MeansWhatIsCollected(opts: seq<Said>, b: Seen, c: UserConfig)
    requires AllUnderstood(opts) && Collects(opts, NOTHING_SEEN, b)
    ensures Concludes(b, c) <==> Means(opts, c)
  {
    hide LastValue, LastAttach, Mentions, NumberOf, Print, Lowered, AllUnderstood;
    HookUnderstood(opts);
  }

  /** Every hook name on an understood command line is one of three. */
  lemma {:induction false} HookUnderstood(opts: seq<Said>)
    requires AllUnderstood(opts)
    ensures var v := LastValue(opts, "--hook");
            v.Some? ==> v.value == "xdp" || v.value == "tc" || v.value == "both"
    decreases |opts|
  {
    if opts != [] {
      HookUnderstood(opts[1..]);
      assert opts[0] in opts;
      hide InRangeText;
    }
  }
}
