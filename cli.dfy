/*
 * The command line of the simulator (pydgin/sim.py:1240-1450 and the
 * defaults of 1530-1626): the run-wide configuration the simulator object
 * carries, the token state machine that fills it in, Python's int() and
 * str.split() on the option values, and the defaults applied once the
 * program name was found.  The loop that walks the tokens lives in the
 * simulator class; here each token's effect and the whole parse are stated
 * as functions.
 */
module Options {
  import opened Cores

  // ---------------------------------------------------------------------
  // The configuration
  // ---------------------------------------------------------------------

  /** The bandwidth options: instruction, data, MDU and FPU ports. */
  datatype Ports = Ports(inst: int, data: int, mdu: int, fpu: int)

  /** The boolean options, each set (or, for the two toggles, cleared) by a bare switch. */
  datatype Switches = Switches(
    linetrace: bool,
    color: bool,
    icoalesce: bool,
    iwordMatch: bool,
    simt: bool,
    limitLockstep: bool,
    adaptiveHint: bool,
    mt: bool)

  /** The simulator's run-wide options. */
  datatype Config = Config(
    maxInsts: int,
    maxTicks: int,
    ncores: int,
    activeCores: int,
    coreSwitchIval: int,
    pkernel: Option<string>,
    reconvergence: int,
    lockstep: int,
    taskLockstep: bool,
    outfile: string,
    jitFlags: seq<string>,
    ports: Ports,
    icacheLineSz: int,
    dcacheLineSz: int,
    l0BufferSz: int,
    barrierLimit: int,
    barrierDelta: int,
    schedLimit: int,
    switches: Switches)

  /** The values the simulator object starts with (Sim.__init__). */
  function InitialConfig(): (c: Config)
    ensures c.ncores == 1 && c.barrierLimit == 250 && c.barrierDelta == 0
    ensures c.icacheLineSz % 4 == 0 && c.dcacheLineSz % 4 == 0
    ensures c.switches.icoalesce && c.switches.iwordMatch && !c.switches.mt
  {
    Config(0, 0, 1, 0, 1, None, 0, 0, false, "", [], Ports(0, 0, 0, 0), 0, 0, 0, 250, 0, 0,
           Switches(false, false, true, true, false, false, false, false))
  }

  /** The options entry_point keeps in local variables. */
  datatype Locals = Locals(
    testbin: bool,
    accelRf: bool,
    envp: seq<string>,
    debugFlags: seq<string>,
    debugStartsAfter: int,
    coreType: int,
    statsCoreType: int,
    runtimeMd: Option<string>)

  function InitialLocals(): Locals
  {
    Locals(false, false, [], [], 0, 0, 0, None)
  }

  // ---------------------------------------------------------------------
  // Python's int() on a decimal string
  // ---------------------------------------------------------------------

  /** The characters str.strip() removes. */
  predicate IsSpace(ch: char)
  {
    ch == ' ' || ch == '\t' || ch == '\n' || ch == '\r' || ch == '\U{B}' || ch == '\U{C}'
  }

  function StripLeft(s: string): (r: string)
    ensures |r| <= |s|
    ensures |r| > 0 ==> !IsSpace(r[0])
  {
    if |s| > 0 && IsSpace(s[0]) then StripLeft(s[1..]) else s
  }

  /** What lstrip() keeps is a suffix of its argument. */
  lemma {:induction false} StripLeftSuffix(s: string)
    ensures StripLeft(s) == s[|s| - |StripLeft(s)|..]
  {
    if |s| > 0 && IsSpace(s[0]) {
      StripLeftSuffix(s[1..]);
    }
  }

  function StripRight(s: string): (r: string)
    ensures |r| <= |s|
    ensures |r| > 0 ==> !IsSpace(r[|r| - 1])
  {
    if |s| > 0 && IsSpace(s[|s| - 1]) then StripRight(s[..|s| - 1]) else s
  }

  /** What rstrip() keeps is a prefix of its argument. */
  lemma {:induction false} StripRightPrefix(s: string)
    ensures StripRight(s) == s[..|StripRight(s)|]
  {
    if |s| > 0 && IsSpace(s[|s| - 1]) {
      StripRightPrefix(s[..|s| - 1]);
    }
  }

  function Strip(s: string): string
  {
    StripRight(StripLeft(s))
  }

  predicate IsDigit(ch: char)
  {
    '0' <= ch <= '9'
  }

  predicate IsDigits(s: string)
  {
    forall i :: 0 <= i < |s| ==> IsDigit(s[i])
  }

  /** The value of a string of decimal digits, most significant first. */
  function DigitsValue(s: string): nat
    requires IsDigits(s)
  {
    if |s| == 0 then 0
    else 10 * DigitsValue(s[..|s| - 1]) + (s[|s| - 1] as int - '0' as int)
  }

  /**
   * int(token): surrounding whitespace is ignored, then an optional sign,
   * more whitespace after a sign, and at least one decimal digit; anything
   * else raises ValueError (None).
   */
  function ParseInt(s: string): Option<int>
  {
    var t := Strip(s);
    if |t| > 0 && (t[0] == '-' || t[0] == '+') then
      var ds := StripLeft(t[1..]);
      if |ds| > 0 && IsDigits(ds) then
        var v: int := DigitsValue(ds);
        Some(if t[0] == '-' then -v else v)
      else None
    else if |t| > 0 && IsDigits(t) then Some(DigitsValue(t))
    else None
  }

  /** The decimal form of a natural number, as str() writes it. */
  function ShowNat(n: nat): (s: string)
    ensures |s| > 0 && IsDigits(s)
  {
    if n < 10 then ['0' + n as char] else ShowNat(n / 10) + ['0' + (n % 10) as char]
  }

  function ShowInt(n: int): string
  {
    if n < 0 then "-" + ShowNat(-n) else ShowNat(n)
  }

  lemma {:induction false} ShowNatValue(n: nat)
    ensures DigitsValue(ShowNat(n)) == n
  {
    if n >= 10 {
      var h := n / 10;
      ShowNatValue(h);
      var s := ShowNat(n);
      assert s[..|s| - 1] == ShowNat(h);
    }
  }

  lemma StripNoSpace(s: string)
    requires |s| > 0 && !IsSpace(s[0]) && !IsSpace(s[|s| - 1])
    ensures Strip(s) == s
  {
  }

  lemma StripLeftNoSpace(s: string)
    requires |s| > 0 && !IsSpace(s[0])
    ensures StripLeft(s) == s
  {
  }

  /** int() reads back every number str() writes. */
  lemma {:induction false} ParseShowInt(n: int)
    ensures ParseInt(ShowInt(n)) == Some(n)
  {
    if n < 0 {
      assert ShowInt(n) == "-" + ShowNat(-n);
      ParseShowNegative(n);
    } else {
      assert ShowInt(n) == ShowNat(n);
      ParseShowNatural(n);
    }
  }

  lemma {:induction false} ParseShowNatural(n: nat)
    ensures ParseInt(ShowNat(n)) == Some(n)
  {
    ParseDigits(ShowNat(n));
    ShowNatValue(n);
  }

  /** A string of digits alone is read as its decimal value. */
  lemma {:induction false} ParseDigits(s: string)
    requires |s| > 0 && IsDigits(s)
    ensures ParseInt(s) == Some(DigitsValue(s))
  {
    assert Strip(s) == s by { StripNoSpace(s); }
    assert s[0] != '-' && s[0] != '+' by { assert IsDigit(s[0]); }
  }

  lemma {:induction false} ParseShowNegative(n: int)
    requires n < 0
    ensures ParseInt("-" + ShowNat(-n)) == Some(n)
  {
    var ds := ShowNat(-n);
    var s := "-" + ds;
    assert s[0] == '-' && s[1..] == ds;
    assert Strip(s) == s by { StripNoSpace(s); }
    assert StripLeft(ds) == ds by { StripLeftNoSpace(ds); }
    assert DigitsValue(ds) == -n by { ShowNatValue(-n); }
  }

  /** A token with no digit at all, such as an empty one, is not a number. */
  lemma ParseIntNeedsDigit(s: string)
    requires forall i :: 0 <= i < |s| ==> !IsDigit(s[i])
    ensures ParseInt(s) == None
  {
    var l := StripLeft(s);
    var t := Strip(s);
    assert forall i :: 0 <= i < |t| ==> !IsDigit(t[i]) by {
      StripLeftSuffix(s);
      StripRightPrefix(l);
      assert forall i :: 0 <= i < |l| ==> l[i] == s[|s| - |l| + i];
      assert forall i :: 0 <= i < |t| ==> t[i] == l[i];
    }
    if |t| > 0 && (t[0] == '-' || t[0] == '+') {
      var ds := StripLeft(t[1..]);
      StripLeftSuffix(t[1..]);
      assert |ds| > 0 ==> ds[0] == t[|t| - |ds|];
    } else if |t| > 0 {
      assert !IsDigits(t) by { assert !IsDigit(t[0]); }
    }
  }

  /** Whitespace may separate the sign from the digits: int("- 7") is -7. */
  lemma ParseIntSpacedSign()
    ensures ParseInt("- 7") == Some(-7)
  {
    var t: string := "- 7";
    assert Strip(t) == t by { StripNoSpace(t); }
    assert StripLeft(t[1..]) == "7" by {
      assert t[1..] == " 7";
      assert StripLeft(" 7") == StripLeft("7");
      StripLeftNoSpace("7");
    }
    assert IsDigits("7") && DigitsValue("7") == 7;
  }

  // ---------------------------------------------------------------------
  // Python's str.split(sep) with a one-character separator
  // ---------------------------------------------------------------------

  function Split(s: string, sep: char): (parts: seq<string>)
    ensures |parts| >= 1
    ensures forall k :: 0 <= k < |parts| ==> sep !in parts[k]
  {
    if |s| == 0 then [""]
    else if s[0] == sep then [""] + Split(s[1..], sep)
    else
      var rest := Split(s[1..], sep);
      [[s[0]] + rest[0]] + rest[1..]
  }

  /** sep.join(parts) */
  function Join(parts: seq<string>, sep: char): string
    requires |parts| >= 1
  {
    if |parts| == 1 then parts[0] else parts[0] + [sep] + Join(parts[1..], sep)
  }

  /** Joining the pieces with the separator gives the token back. */
  lemma {:induction false} SplitJoin(s: string, sep: char)
    ensures Join(Split(s, sep), sep) == s
  {
    if |s| > 0 {
      var t := s[1..];
      SplitJoin(t, sep);
      var rest := Split(t, sep);
      if s[0] == sep {
        assert ([""] + rest)[1..] == rest;
      } else {
        var parts := [[s[0]] + rest[0]] + rest[1..];
        if |rest| > 1 {
          assert parts[1..] == rest[1..];
          assert Join(rest, sep) == rest[0] + [sep] + Join(rest[1..], sep);
        }
      }
    }
  }

  /** There is one piece more than there are separators. */
  lemma {:induction false} SplitCount(s: string, sep: char)
    ensures |Split(s, sep)| == 1 + multiset(s)[sep]
  {
    if |s| > 0 {
      var t := s[1..];
      SplitCount(t, sep);
      assert s == [s[0]] + t;
      assert multiset(s) == multiset{s[0]} + multiset(t);
    }
  }

  // ---------------------------------------------------------------------
  // The option names
  // ---------------------------------------------------------------------

  /** A token that looks like an option. */
  predicate Dashed(token: string)
  {
    |token| > 0 && token[0] == '-'
  }

  /** Whether a token is one of a list of names, compared name by name. */
  predicate Listed(token: string, names: seq<string>)
  {
    |names| > 0 && (names[0] == token || Listed(token, names[1..]))
  }

  lemma {:induction false} ListedIsIn(token: string, names: seq<string>)
    ensures Listed(token, names) <==> token in names
  {
    if |names| > 0 {
      ListedIsIn(token, names[1..]);
      assert names == [names[0]] + names[1..];
    }
  }

  /** The entry of the first table row whose name is the token, if any: the code's chain of string comparisons. */
  function Lookup<T>(table: seq<(string, T)>, token: string): Option<T>
  {
    if |table| == 0 then None
    else if table[0].0 == token then Some(table[0].1)
    else Lookup(table[1..], token)
  }

  /** A lookup finds the first row with the token's name, and fails only when no row has it. */
  lemma {:induction false} LookupFinds<T>(table: seq<(string, T)>, token: string)
    ensures Lookup(table, token).Some? ==>
              exists j :: 0 <= j < |table| && table[j] == (token, Lookup(table, token).value)
                          && forall k :: 0 <= k < j ==> table[k].0 != token
    ensures Lookup(table, token).None? <==> forall j :: 0 <= j < |table| ==> table[j].0 != token
  {
    if |table| > 0 && table[0].0 != token {
      LookupFinds(table[1..], token);
      if Lookup(table, token).Some? {
        var j :| 0 <= j < |table| - 1 && table[1..][j] == (token, Lookup(table, token).value)
                 && forall k :: 0 <= k < j ==> table[1..][k].0 != token;
        assert table[j + 1] == (token, Lookup(table, token).value);
        assert forall k :: 0 <= k < j + 1 ==> table[k].0 != token by {
          forall k | 0 <= k < j + 1 ensures table[k].0 != token {
            if k > 0 { assert table[k] == table[1..][k - 1]; }
          }
        }
      } else {
        forall j | 0 <= j < |table| ensures table[j].0 != token {
          if j > 0 { assert table[j] == table[1..][j - 1]; }
        }
      }
    }
  }

  /** The bare switches. */
  datatype SwitchOption =
    | Test | AccelRf | Linetrace | Color | NoIcoalesce | NoIwordMatch | Simt | LimitLockstep
    | AdaptiveHint | Mt

  /** The options whose value is a number. */
  datatype NumOption =
    | MaxInsts | MaxTicks | NCores | CoreSwitchIval | CoreType | StatsCoreType | Analysis | LockstepMode
    | InstPorts | DataPorts | MduPorts | FpuPorts | IcacheLineSz | DcacheLineSz | L0BufferSz
    | BarrierLimit | BarrierDelta | SchedLimit

  /** What an awaited value is for. */
  datatype ValueOption =
    | Env | DebugFlags | Jit | Pkernel | RuntimeMd | Outfile
    | Number(opt: NumOption)
    | Unused   // an option the switches already caught: its value is ignored

  /**
   * The names the parser knows: the help flags, the switches, the options
   * that take the following token as their value, and what each option
   * does with that value.
   */
  datatype Syntax = Syntax(
    help: seq<string>,
    switches: seq<(string, SwitchOption)>,
    withArgs: seq<string>,
    values: seq<(string, ValueOption)>)

  /** The help flags. */
  const HelpNames: seq<string> := ["--help", "-h"]

  /** The switches by name, in the order the code compares them. */
  const SwitchTable: seq<(string, SwitchOption)> := [
    ("--test", Test), ("--accel-rf", AccelRf), ("--linetrace", Linetrace), ("--color", Color),
    ("--icoalesce", NoIcoalesce), ("--iword-match", NoIwordMatch), ("--simt", Simt),
    ("--limit-lockstep", LimitLockstep), ("--adaptive-hint", AdaptiveHint), ("--mt", Mt)]

  /** The options that take the following token as their value. */
  const TokensWithArgs: seq<string> := [
    "-h", "--help", "-e", "--env", "-d", "--debug", "--max-insts", "--max-ticks", "--jit",
    "--ncores", "--core-switch-ival", "--pkernel", "--core-type", "--stats-core-type",
    "--linetrace", "--lockstep", "--color", "--analysis", "--runtime-md", "--outfile",
    "--inst-ports", "--data-ports", "--mdu-ports", "--fpu-ports", "--icache-line-sz",
    "--dcache-line-sz", "--l0-buffer-sz", "--adaptive-hint", "--barrier-limit",
    "--barrier-delta", "--icoalesce", "--iword-match", "--simt", "--sched-limit",
    "--limit-lockstep", "--mt"]

  /** What each option taking a value does with it, in the order the code compares them. */
  const ValueTable: seq<(string, ValueOption)> := [
    ("--env", Env), ("-e", Env), ("--debug", DebugFlags), ("-d", DebugFlags),
    ("--max-insts", Number(MaxInsts)), ("--max-ticks", Number(MaxTicks)), ("--jit", Jit),
    ("--ncores", Number(NCores)), ("--core-switch-ival", Number(CoreSwitchIval)), ("--pkernel", Pkernel),
    ("--core-type", Number(CoreType)), ("--stats-core-type", Number(StatsCoreType)),
    ("--analysis", Number(Analysis)), ("--lockstep", Number(LockstepMode)), ("--runtime-md", RuntimeMd),
    ("--outfile", Outfile), ("--inst-ports", Number(InstPorts)), ("--data-ports", Number(DataPorts)),
    ("--mdu-ports", Number(MduPorts)), ("--fpu-ports", Number(FpuPorts)),
    ("--icache-line-sz", Number(IcacheLineSz)), ("--dcache-line-sz", Number(DcacheLineSz)),
    ("--l0-buffer-sz", Number(L0BufferSz)), ("--barrier-limit", Number(BarrierLimit)),
    ("--barrier-delta", Number(BarrierDelta)), ("--sched-limit", Number(SchedLimit))]

  /** The simulator's option names. */
  const SimSyntax: Syntax := Syntax(HelpNames, SwitchTable, TokensWithArgs, ValueTable)

  /** Every option name a token is compared with before the program name starts with '-'. */
  predicate AllDashed(syn: Syntax)
  {
    && (forall j :: 0 <= j < |syn.help| ==> Dashed(syn.help[j]))
    && (forall j :: 0 <= j < |syn.switches| ==> Dashed(syn.switches[j].0))
    && (forall j :: 0 <= j < |syn.withArgs| ==> Dashed(syn.withArgs[j]))
  }

  lemma SimSyntaxDashed()
    ensures AllDashed(SimSyntax)
  {
    SwitchesDashed();
    WithArgsDashed();
  }

  lemma SwitchesDashed()
    ensures forall j :: 0 <= j < |SwitchTable| ==> Dashed(SwitchTable[j].0)
  {
  }

  lemma WithArgsDashed()
    ensures forall j :: 0 <= j < |TokensWithArgs| ==> Dashed(TokensWithArgs[j])
  {
  }

  predicate IsHelp(token: string, syn: Syntax)
  {
    Listed(token, syn.help)
  }

  /** Which switch a token names, if any. */
  function SwitchNamed(token: string, syn: Syntax): Option<SwitchOption>
  {
    Lookup(syn.switches, token)
  }

  /** Which option an awaited value belongs to. */
  function OptionNamed(p: string, syn: Syntax): ValueOption
  {
    match Lookup(syn.values, p)
    case Some(v) => v
    case None => Unused
  }

  // ---------------------------------------------------------------------
  // The token state machine
  // ---------------------------------------------------------------------

  /** The parser between two tokens: the options so far, the option awaiting its value, the program name's index. */
  datatype ParseState = ParseState(cfg: Config, locals: Locals, prev: string, filenameIdx: int)

  /** How entry_point's parse ends: --help (exit 0), an error (exit 1), an uncaught exception, or a program to run. */
  datatype Outcome =
    | ShowHelp
    | BadArgs
    | Crash
    | Parsed(cfg: Config, locals: Locals, filenameIdx: int)

  datatype Step = Next(s: ParseState) | Done(o: Outcome)

  /**
   * A switch takes effect: --test and --accel-rf set a local, the others a
   * simulator option (--icoalesce and --iword-match clear theirs).
   */
  function Switch(s: ParseState, w: SwitchOption): (r: ParseState)
    ensures r.prev == s.prev && r.filenameIdx == s.filenameIdx
    ensures r.cfg.(switches := s.cfg.switches) == s.cfg
  {
    var sw := s.cfg.switches;
    match w
    case Test => s.(locals := s.locals.(testbin := true))
    case AccelRf => s.(locals := s.locals.(accelRf := true))
    case Linetrace => s.(cfg := s.cfg.(switches := sw.(linetrace := true)))
    case Color => s.(cfg := s.cfg.(switches := sw.(color := true)))
    case NoIcoalesce => s.(cfg := s.cfg.(switches := sw.(icoalesce := false)))
    case NoIwordMatch => s.(cfg := s.cfg.(switches := sw.(iwordMatch := false)))
    case Simt => s.(cfg := s.cfg.(switches := sw.(simt := true)))
    case LimitLockstep => s.(cfg := s.cfg.(switches := sw.(limitLockstep := true)))
    case AdaptiveHint => s.(cfg := s.cfg.(switches := sw.(adaptiveHint := true)))
    case Mt => s.(cfg := s.cfg.(switches := sw.(mt := true)))
  }

  /** A numeric option's value stored; a line size that is not a multiple of 4 is refused. */
  function SetNumber(t: ParseState, o: NumOption, v: int): (r: Step)
    ensures r.Next? ==> r.s.prev == t.prev && r.s.filenameIdx == t.filenameIdx && r.s.cfg.switches == t.cfg.switches
    ensures r.Done? ==> r.o == BadArgs
    ensures r.Done? <==> (o == IcacheLineSz || o == DcacheLineSz) && v % 4 != 0
    ensures r.Next? ==> r.s.cfg.icacheLineSz == (if o == IcacheLineSz then v else t.cfg.icacheLineSz)
    ensures r.Next? ==> r.s.cfg.dcacheLineSz == (if o == DcacheLineSz then v else t.cfg.dcacheLineSz)
  {
    var c, l := t.cfg, t.locals;
    match o
    case MaxInsts => Next(t.(cfg := c.(maxInsts := v)))
    case MaxTicks => Next(t.(cfg := c.(maxTicks := v)))
    case NCores => Next(t.(cfg := c.(ncores := v, activeCores := v)))
    case CoreSwitchIval => Next(t.(cfg := c.(coreSwitchIval := v)))
    case CoreType => Next(t.(locals := l.(coreType := v)))
    case StatsCoreType => Next(t.(locals := l.(statsCoreType := v)))
    case Analysis => Next(t.(cfg := c.(reconvergence := v)))
    case LockstepMode => Next(t.(cfg := c.(lockstep := v)))
    case InstPorts => Next(t.(cfg := c.(ports := c.ports.(inst := v))))
    case DataPorts => Next(t.(cfg := c.(ports := c.ports.(data := v))))
    case MduPorts => Next(t.(cfg := c.(ports := c.ports.(mdu := v))))
    case FpuPorts => Next(t.(cfg := c.(ports := c.ports.(fpu := v))))
    case IcacheLineSz => if v % 4 == 0 then Next(t.(cfg := c.(icacheLineSz := v))) else Done(BadArgs)
    case DcacheLineSz => if v % 4 == 0 then Next(t.(cfg := c.(dcacheLineSz := v))) else Done(BadArgs)
    case L0BufferSz => Next(t.(cfg := c.(l0BufferSz := v)))
    case BarrierLimit => Next(t.(cfg := c.(barrierLimit := v)))
    case BarrierDelta => Next(t.(cfg := c.(barrierDelta := v)))
    case SchedLimit => Next(t.(cfg := c.(schedLimit := v)))
  }

  /**
   * The token after an option that takes a value, with the option awaiting
   * it cleared afterwards.  A number that int() refuses, a --debug start that
   * is not a number, and --jit on a simulator built without a JIT driver
   * raise an exception nothing catches.
   */
  function Value(s: ParseState, token: string, jitEnabled: bool, syn: Syntax): (r: Step)
    ensures r.Next? ==> r.s.prev == "" && r.s.filenameIdx == s.filenameIdx && r.s.cfg.switches == s.cfg.switches
    ensures r.Done? ==> r.o == Crash || r.o == BadArgs
  {
    var c, l := s.cfg, s.locals;
    var t := s.(prev := "");
    match OptionNamed(s.prev, syn)
    case Env => Next(t.(locals := l.(envp := l.envp + [token])))
    case DebugFlags =>
      var parts := Split(token, ':');
      var after := if |parts| > 1 then ParseInt(parts[1]) else Some(l.debugStartsAfter);
      if after.None? then Done(Crash)
      else Next(t.(locals := l.(debugStartsAfter := after.value, debugFlags := Split(parts[0], ','))))
    case Jit => if jitEnabled then Next(t.(cfg := c.(jitFlags := c.jitFlags + [token]))) else Done(Crash)
    case Pkernel => Next(t.(cfg := c.(pkernel := Some(token))))
    case RuntimeMd => Next(t.(locals := l.(runtimeMd := Some(token))))
    case Outfile => Next(t.(cfg := c.(outfile := token)))
    case Number(o) => (if ParseInt(token).None? then Done(Crash) else SetNumber(t, o, ParseInt(token).value))
    case Unused => Next(t)
  }

  /** A value keeps both cache line sizes word-aligned. */
  lemma ValueKeepsAligned(s: ParseState, token: string, jitEnabled: bool, syn: Syntax)
    requires s.cfg.icacheLineSz % 4 == 0 && s.cfg.dcacheLineSz % 4 == 0
    ensures var r := Value(s, token, jitEnabled, syn);
            r.Next? ==> r.s.cfg.icacheLineSz % 4 == 0 && r.s.cfg.dcacheLineSz % 4 == 0
  {
    match OptionNamed(s.prev, syn)
    case Number(o) => {}
    case Env => {}
    case DebugFlags => {}
    case Jit => {}
    case Pkernel => {}
    case RuntimeMd => {}
    case Outfile => {}
    case Unused => {}
  }

  /** What a token is when no option awaits a value, classified in the order of the code. */
  datatype TokenKind = HelpToken | SwitchToken(w: SwitchOption) | TakesValue | Unknown | ProgramName

  function KindOf(token: string, syn: Syntax): (k: TokenKind)
    ensures k == TakesValue ==> token in syn.withArgs
  {
    ListedIsIn(token, syn.withArgs);
    if IsHelp(token, syn) then HelpToken
    else if SwitchNamed(token, syn).Some? then SwitchToken(SwitchNamed(token, syn).value)
    else if Listed(token, syn.withArgs) then TakesValue
    else if Dashed(token) then Unknown
    else ProgramName
  }

  /**
   * One token: with no option awaiting a value, --help ends the parse, a
   * switch takes effect, an option taking a value waits for it, any other
   * token starting with '-' is rejected, and the first other token is the
   * program name; otherwise the token is the awaited value.
   */
  function TokenStep(s: ParseState, token: string, i: int, jitEnabled: bool, syn: Syntax): Step
  {
    if s.prev == "" then
      match KindOf(token, syn)
      case HelpToken => Done(ShowHelp)
      case SwitchToken(w) => Next(Switch(s, w))
      case TakesValue => Next(s.(prev := token))
      case Unknown => Done(BadArgs)
      case ProgramName => Next(s.(filenameIdx := i))
    else Value(s, token, jitEnabled, syn)
  }

  /** A program name is any token that does not start with '-'. */
  predicate IsProgramName(token: string)
  {
    !Dashed(token)
  }

  /** When every option name starts with '-', a token that does not is the program name. */
  lemma NotAnOption(token: string, syn: Syntax)
    requires AllDashed(syn)
    requires IsProgramName(token)
    ensures KindOf(token, syn) == ProgramName
  {
    assert !Listed(token, syn.withArgs) by {
      ListedIsIn(token, syn.withArgs);
    }
    assert !Listed(token, syn.help) by {
      ListedIsIn(token, syn.help);
    }
    assert Lookup(syn.switches, token).None? by {
      LookupFinds(syn.switches, token);
    }
  }

  /** Conversely, a token taken as the program name does not start with '-'. */
  lemma ProgramNameIsNoOption(token: string, syn: Syntax)
    requires KindOf(token, syn) == ProgramName
    ensures IsProgramName(token)
  {
  }

  /** After the loop: without a program name the parse fails. */
  function Finish(s: ParseState): Outcome
  {
    if s.filenameIdx == 0 then BadArgs else Parsed(s.cfg, s.locals, s.filenameIdx)
  }

  /** The parse from token i on; it stops at the program name. */
  function ParseFrom(argv: seq<string>, i: nat, s: ParseState, jitEnabled: bool, syn: Syntax): Outcome
    decreases |argv| - i
  {
    if i >= |argv| || s.filenameIdx != 0 then Finish(s)
    else match TokenStep(s, argv[i], i, jitEnabled, syn)
      case Done(o) => o
      case Next(s') => ParseFrom(argv, i + 1, s', jitEnabled, syn)
  }

  /** The parse of a whole command line (argv[0] is the simulator itself). */
  function Parse(argv: seq<string>, cfg: Config, jitEnabled: bool): Outcome
  {
    ParseFrom(argv, 1, ParseState(cfg, InitialLocals(), "", 0), jitEnabled, SimSyntax)
  }

  // ---------------------------------------------------------------------
  // What the parse guarantees
  // ---------------------------------------------------------------------

  /** --help or -h as the first option shows the help whatever follows. */
  lemma HelpFirst(argv: seq<string>, cfg: Config, jitEnabled: bool)
    requires |argv| >= 2 && argv[1] in SimSyntax.help
    ensures Parse(argv, cfg, jitEnabled) == ShowHelp
  {
    ListedIsIn(argv[1], SimSyntax.help);
  }

  /** A token either leaves the program name alone or is itself the program name. */
  lemma TokenStepName(s: ParseState, token: string, i: int, jitEnabled: bool, syn: Syntax)
    ensures var r := TokenStep(s, token, i, jitEnabled, syn);
            r.Next? ==> r.s.filenameIdx == s.filenameIdx || (r.s.filenameIdx == i && IsProgramName(token))
    ensures TokenStep(s, token, i, jitEnabled, syn).Done? ==> !TokenStep(s, token, i, jitEnabled, syn).o.Parsed?
  {
    if s.prev == "" {
      match KindOf(token, syn)
      case HelpToken =>
      case SwitchToken(w) =>
      case TakesValue =>
      case Unknown =>
      case ProgramName => ProgramNameIsNoOption(token, syn);
    }
  }

  /**
   * The program name is the first token that is neither an option nor an
   * option's value: it lies inside argv and it does not start with '-'.
   */
  lemma {:induction false} ParsedName(argv: seq<string>, i: nat, s: ParseState, jitEnabled: bool, syn: Syntax)
    requires 1 <= i && (s.filenameIdx == 0 || (1 <= s.filenameIdx < |argv| && IsProgramName(argv[s.filenameIdx])))
    ensures var o := ParseFrom(argv, i, s, jitEnabled, syn);
            o.Parsed? ==> 1 <= o.filenameIdx < |argv| && IsProgramName(argv[o.filenameIdx])
    decreases |argv| - i
  {
    var o := ParseFrom(argv, i, s, jitEnabled, syn);
    if i >= |argv| || s.filenameIdx != 0 {
      assert o == Finish(s);
    } else {
      var st := TokenStep(s, argv[i], i, jitEnabled, syn);
      TokenStepName(s, argv[i], i, jitEnabled, syn);
      if st.Next? {
        ParsedName(argv, i + 1, st.s, jitEnabled, syn);
        assert o == ParseFrom(argv, i + 1, st.s, jitEnabled, syn);
      } else {
        assert o == st.o;
      }
    }
  }

  lemma ParseName(argv: seq<string>, cfg: Config, jitEnabled: bool)
    ensures var o := Parse(argv, cfg, jitEnabled);
            o.Parsed? ==> 1 <= o.filenameIdx < |argv| && IsProgramName(argv[o.filenameIdx])
  {
    ParsedName(argv, 1, ParseState(cfg, InitialLocals(), "", 0), jitEnabled, SimSyntax);
  }

  /** A parse that succeeds leaves both cache line sizes word-aligned when they started so. */
  lemma {:induction false} ParsedAligned(argv: seq<string>, i: nat, s: ParseState, jitEnabled: bool, syn: Syntax)
    requires s.cfg.icacheLineSz % 4 == 0 && s.cfg.dcacheLineSz % 4 == 0
    ensures var o := ParseFrom(argv, i, s, jitEnabled, syn);
            o.Parsed? ==> o.cfg.icacheLineSz % 4 == 0 && o.cfg.dcacheLineSz % 4 == 0
    decreases |argv| - i
  {
    if i < |argv| && s.filenameIdx == 0 {
      var st := TokenStep(s, argv[i], i, jitEnabled, syn);
      if st.Next? {
        if s.prev != "" {
          ValueKeepsAligned(s, argv[i], jitEnabled, syn);
        }
        ParsedAligned(argv, i + 1, st.s, jitEnabled, syn);
      }
    }
  }

  lemma ParseAligned(argv: seq<string>, jitEnabled: bool)
    ensures var o := Parse(argv, InitialConfig(), jitEnabled);
            o.Parsed? ==> o.cfg.icacheLineSz % 4 == 0 && o.cfg.dcacheLineSz % 4 == 0
  {
    ParsedAligned(argv, 1, ParseState(InitialConfig(), InitialLocals(), "", 0), jitEnabled, SimSyntax);
  }

  /** Whatever follows an option taking a value is its value: never --help, a switch or the program name. */
  lemma ValueNeverOption(s: ParseState, token: string, i: int, jitEnabled: bool, syn: Syntax)
    requires s.prev != ""
    ensures var r := TokenStep(s, token, i, jitEnabled, syn);
            && (r.Next? ==> r.s.prev == "" && r.s.filenameIdx == s.filenameIdx && r.s.cfg.switches == s.cfg.switches)
            && (r.Done? ==> r.o == Crash || r.o == BadArgs)
  {
  }

  /**
   * An --env option takes the next token as its value whatever it looks
   * like, so with "-e --mt prog" no switch is set and prog is run.
   */
  lemma EnvThenName(argv: seq<string>, cfg: Config, jitEnabled: bool, syn: Syntax)
    requires AllDashed(syn)
    requires |argv| >= 4 && KindOf(argv[1], syn) == TakesValue && OptionNamed(argv[1], syn) == Env
    requires IsProgramName(argv[3])
    ensures ParseFrom(argv, 1, ParseState(cfg, InitialLocals(), "", 0), jitEnabled, syn)
            == Parsed(cfg, InitialLocals().(envp := [argv[2]]), 3)
  {
    var s0 := ParseState(cfg, InitialLocals(), "", 0);
    var s1 := s0.(prev := argv[1]);
    var s2 := s0.(locals := s0.locals.(envp := [argv[2]]));
    assert TokenStep(s1, argv[2], 2, jitEnabled, syn) == Next(s2);
    NotAnOption(argv[3], syn);
    assert ParseFrom(argv, 3, s2, jitEnabled, syn) == ParseFrom(argv, 4, s2.(filenameIdx := 3), jitEnabled, syn);
  }

  /** -e is an option taking a value, and that value is an environment entry. */
  lemma EnvTakesValue()
    ensures KindOf("-e", SimSyntax) == TakesValue
    ensures OptionNamed("-e", SimSyntax) == Env
  {
    EnvNoSwitch();
    assert Listed("-e", TokensWithArgs);
  }

  lemma EnvNoSwitch()
    ensures Lookup(SwitchTable, "-e") == None
  {
  }

  /** A switch does not consume the next token, which is then the program name. */
  lemma SwitchThenName(argv: seq<string>, cfg: Config, w: SwitchOption, jitEnabled: bool, syn: Syntax)
    requires AllDashed(syn)
    requires |argv| >= 3 && KindOf(argv[1], syn) == SwitchToken(w) && IsProgramName(argv[2])
    ensures var s := Switch(ParseState(cfg, InitialLocals(), "", 0), w);
            ParseFrom(argv, 1, ParseState(cfg, InitialLocals(), "", 0), jitEnabled, syn) == Parsed(s.cfg, s.locals, 2)
  {
    var s0 := ParseState(cfg, InitialLocals(), "", 0);
    var s1 := Switch(s0, w);
    NotAnOption(argv[2], syn);
    assert ParseFrom(argv, 2, s1, jitEnabled, syn) == ParseFrom(argv, 3, s1.(filenameIdx := 2), jitEnabled, syn);
  }

  /** A cache line size that int() reads but that is not a multiple of 4 is refused. */
  lemma MisalignedLineRefused(s: ParseState, token: string, i: int, jitEnabled: bool, syn: Syntax)
    requires s.prev != "" && OptionNamed(s.prev, syn) in {Number(IcacheLineSz), Number(DcacheLineSz)}
    requires ParseInt(token).Some? && ParseInt(token).value % 4 != 0
    ensures TokenStep(s, token, i, jitEnabled, syn) == Done(BadArgs)
  {
  }

  /** An unknown option is refused. */
  lemma UnknownOptionRefused(argv: seq<string>, cfg: Config, jitEnabled: bool)
    requires |argv| >= 2 && Dashed(argv[1])
    requires argv[1] !in SimSyntax.help && argv[1] !in SimSyntax.withArgs
    requires SwitchNamed(argv[1], SimSyntax).None?
    ensures Parse(argv, cfg, jitEnabled) == BadArgs
  {
    ListedIsIn(argv[1], SimSyntax.help);
    ListedIsIn(argv[1], SimSyntax.withArgs);
  }

  /** A command line that ends before any program name fails, even after an option awaiting its value. */
  lemma {:induction false} NoProgramFails(argv: seq<string>, i: nat, s: ParseState, jitEnabled: bool, syn: Syntax)
    requires s.filenameIdx == 0
    requires forall j :: i <= j < |argv| ==> Dashed(argv[j])
    ensures ParseFrom(argv, i, s, jitEnabled, syn) != ShowHelp ==> ParseFrom(argv, i, s, jitEnabled, syn).Parsed? == false
    decreases |argv| - i
  {
    if i < |argv| {
      var st := TokenStep(s, argv[i], i, jitEnabled, syn);
      if st.Next? {
        assert st.s.filenameIdx == 0;
        NoProgramFails(argv, i + 1, st.s, jitEnabled, syn);
      }
    }
  }

  // ---------------------------------------------------------------------
  // Defaults applied after the parse (sim.py:1544-1626)
  // ---------------------------------------------------------------------

  /**
   * Every option left at 0 takes its default: the instruction ports one per
   * core (one in multithread mode), the line sizes one word per core, the
   * other ports one per core, the delta 50, the scheduling limit the core
   * count; a SIMT front end always matches instruction words.
   */
  function Defaults(c: Config): (r: Config)
    ensures r.ncores == c.ncores && r.barrierLimit == c.barrierLimit && r.l0BufferSz == c.l0BufferSz
    ensures r.switches.mt == c.switches.mt && r.switches.adaptiveHint == c.switches.adaptiveHint
  {
    var n := c.ncores;
    var sw := c.switches;
    c.(ports := Ports(
         if c.ports.inst == 0 then (if sw.mt then 1 else n) else c.ports.inst,
         if c.ports.data == 0 then n else c.ports.data,
         if c.ports.mdu == 0 then n else c.ports.mdu,
         if c.ports.fpu == 0 then n else c.ports.fpu),
       icacheLineSz := if c.icacheLineSz == 0 then n * 4 else c.icacheLineSz,
       dcacheLineSz := if c.dcacheLineSz == 0 then n * 4 else c.dcacheLineSz,
       barrierDelta := if c.barrierDelta == 0 then 50 else c.barrierDelta,
       schedLimit := if c.schedLimit == 0 then n else c.schedLimit,
       switches := if sw.simt then sw.(iwordMatch := true) else sw)
  }

  /** Options given a non-zero value keep it. */
  lemma DefaultsKeepGiven(c: Config)
    ensures var r := Defaults(c);
            && (c.ports.inst != 0 ==> r.ports.inst == c.ports.inst)
            && (c.ports.data != 0 ==> r.ports.data == c.ports.data)
            && (c.icacheLineSz != 0 ==> r.icacheLineSz == c.icacheLineSz)
            && (c.dcacheLineSz != 0 ==> r.dcacheLineSz == c.dcacheLineSz)
            && (c.barrierDelta != 0 ==> r.barrierDelta == c.barrierDelta)
            && (c.schedLimit != 0 ==> r.schedLimit == c.schedLimit)
  {
  }

  /**
   * With at least one core and no negative option, every bandwidth, both
   * line sizes, the delta and the scheduling limit are positive afterwards,
   * and word-aligned line sizes stay word-aligned.
   */
  lemma DefaultsPositive(c: Config)
    requires c.ncores >= 1
    requires c.ports.inst >= 0 && c.ports.data >= 0 && c.ports.mdu >= 0 && c.ports.fpu >= 0
    requires c.icacheLineSz >= 0 && c.dcacheLineSz >= 0 && c.barrierDelta >= 0 && c.schedLimit >= 0
    ensures var r := Defaults(c);
            && r.ports.inst >= 1 && r.ports.data >= 1 && r.ports.mdu >= 1 && r.ports.fpu >= 1
            && r.icacheLineSz >= 1 && r.dcacheLineSz >= 1 && r.barrierDelta >= 1 && r.schedLimit >= 1
    ensures c.icacheLineSz % 4 == 0 ==> Defaults(c).icacheLineSz % 4 == 0
    ensures c.dcacheLineSz % 4 == 0 ==> Defaults(c).dcacheLineSz % 4 == 0
  {
  }

  /** Applying the defaults twice changes nothing more. */
  lemma DefaultsIdempotent(c: Config)
    ensures Defaults(Defaults(c)) == Defaults(c)
  {
    var r := Defaults(c);
    assert r.ncores == c.ncores;
  }

  // ---------------------------------------------------------------------
  // Per-core set-up after loading (sim.py:1478-1491)
  // ---------------------------------------------------------------------

  function Zeros(n: int): (r: seq<int>)
    ensures |r| == (if n > 0 then n else 0) && forall i :: 0 <= i < |r| ==> r[i] == 0
  {
    if n > 0 then seq(n, _ => 0) else []
  }

  /**
   * Each core gets an L0 buffer of the configured size filled with line 0
   * (only when the size is positive), lockstep mode 1 marks it lockstep,
   * and its barrier limit is the delta with adaptive hints (as given, before
   * the delta's default) and the global limit without.
   */
  function CoreSetup(c: CoreState, cfg: Config): (r: CoreState)
    ensures r.barrierLimit == (if cfg.switches.adaptiveHint then cfg.barrierDelta else cfg.barrierLimit)
    ensures r.l0Buffer == (if cfg.l0BufferSz > 0 then Zeros(cfg.l0BufferSz) else c.l0Buffer)
    ensures r.lockstep == (cfg.lockstep == 1 || c.lockstep)
    ensures r.(barrierLimit := c.barrierLimit, l0Buffer := c.l0Buffer, lockstep := c.lockstep) == c
  {
    c.(l0Buffer := if cfg.l0BufferSz > 0 then Zeros(cfg.l0BufferSz) else c.l0Buffer,
       lockstep := if cfg.lockstep == 1 then true else c.lockstep,
       barrierLimit := if cfg.switches.adaptiveHint then cfg.barrierDelta else cfg.barrierLimit)
  }

  /**
   * With adaptive hints and no --barrier-delta, the cores start with limit 0
   * while the run-wide delta then becomes 50.
   */
  lemma AdaptiveLimitBeforeDefault(c: CoreState, cfg: Config)
    requires cfg.switches.adaptiveHint && cfg.barrierDelta == 0
    ensures CoreSetup(c, cfg).barrierLimit == 0 && Defaults(cfg).barrierDelta == 50
  {
  }
}
