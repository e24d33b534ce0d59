/*
 * The simulator object of pydgin/sim.py: the array of core states it owns,
 * its redundancy and barrier counters, its tick counter and its options,
 * with the lockstep loop `run`, the time-multiplexed loop `run_mt`, the
 * barrier synchroniser that ends every tick of both, and `entry_point`.
 * Every method updates the object in place, as the source does, and is
 * proved equal to the function of Loops, Lockstep or Barrier that states
 * what it computes.
 */
module Simulator {
  import opened Cores
  import opened Counters
  import opened Barrier
  import opened Redundancy
  import opened Lockstep
  import opened Options
  import opened Loops

  // ---------------------------------------------------------------------
  // How entry_point ends
  // ---------------------------------------------------------------------

  /** The process exit: a return code, an exception nothing catches, or a run whose inputs ran out. */
  datatype Exit = Code(n: int) | Uncaught(e: Error) | Unfinished

  /** Whether the files entry_point opens can be opened. */
  datatype Files = Files(exeOpens: bool, runtimeMdOpens: bool, outfileOpens: bool)

  /** Python's truth value of an optional string: None and "" are false. */
  predicate Given(s: Option<string>)
  {
    s.Some? && s.value != ""
  }

  /** The exit once a loop has stopped: 0, unless it raised. */
  function ExitOf(reason: StopReason): (e: Exit)
    ensures e.Uncaught? <==> reason.Raised?
    ensures e == Unfinished <==> reason == OutOfSchedule
    ensures e == Code(0) <==> !reason.Raised? && reason != OutOfSchedule
  {
    match reason
    case Raised(err) => Uncaught(err)
    case OutOfSchedule => Unfinished
    case _ => Code(0)
  }

  /**
   * The cores init_state creates, one per configured core with its id as
   * its position, each then given its L0 buffer, lockstep flag and barrier
   * limit.
   */
  function Boot(boot: CoreState, cfg: Config): (r: seq<CoreState>)
    requires cfg.ncores >= 0
    ensures |r| == cfg.ncores && IdsMatch(r)
    ensures forall i :: 0 <= i < |r| ==> r[i] == CoreSetup(boot.(coreId := i), cfg)
  {
    seq(cfg.ncores, i => CoreSetup(boot.(coreId := i), cfg))
  }

  /** The options the loop runs with: --lockstep 2 marks task-aware lockstep, then the defaults. */
  function RunConfig(cfg: Config): (r: Config)
    ensures r.ncores == cfg.ncores
    ensures r.taskLockstep == (cfg.taskLockstep || cfg.lockstep == 2)
  {
    Defaults(cfg.(taskLockstep := cfg.taskLockstep || cfg.lockstep == 2))
  }

  /**
   * entry_point as a whole: the parse; then the executable must open, there
   * must be a core 0, the runtime metadata and the dump file must open when
   * given, and the reconvergence scheme must be 0, 1 or 2; the defaults are
   * applied and the configured loop runs from the object's counters.
   */
  function Launch(argv: seq<string>, cfg0: Config, jitEnabled: bool, files: Files, boot: CoreState,
                  st: Stats, tickCtr: int, jobs: seq<LockstepInputs>, picks: seq<MTInputs>,
                  blankReq: MemRequest, blankOperands: Operands, compare: (Operands, Operands) -> bool): Exit
  {
    match Parse(argv, cfg0, jitEnabled)
    case ShowHelp => Code(0)
    case BadArgs => Code(1)
    case Crash => Uncaught(BadOption)
    case Parsed(cfg, locals, _) => Start(cfg, locals, jitEnabled, files, boot, st, tickCtr, jobs, picks, blankReq, blankOperands, compare)
  }

  /** What follows a successful parse: the files, the cores, the checks on the options, and the loop. */
  function Start(cfg: Config, locals: Locals, jitEnabled: bool, files: Files, boot: CoreState,
                 st: Stats, tickCtr: int, jobs: seq<LockstepInputs>, picks: seq<MTInputs>,
                 blankReq: MemRequest, blankOperands: Operands, compare: (Operands, Operands) -> bool): Exit
  {
      if !files.exeOpens then Code(1)
      else if cfg.ncores < 1 then Uncaught(IndexOutOfRange)
      else if Given(locals.runtimeMd) && !files.runtimeMdOpens then Code(1)
      else if cfg.outfile != "" && !files.outfileOpens then Code(1)
      else if !(0 <= cfg.reconvergence <= 2) then Code(1)
      else
        var run := RunConfig(cfg);
        var m := Machine(Boot(boot, cfg), st, tickCtr);
        if run.switches.mt then ExitOf(Loops.RunMT(m, run, blankReq, blankOperands, picks, compare).reason)
        else ExitOf(RunLockstep(m, run, jitEnabled, jobs, compare).reason)
  }

  // ---------------------------------------------------------------------
  // What entry_point guarantees
  // ---------------------------------------------------------------------

  /** --help or -h first exits with 0 before anything is opened or run. */
  lemma LaunchHelp(argv: seq<string>, cfg0: Config, jitEnabled: bool, files: Files, boot: CoreState,
                   st: Stats, tickCtr: int, jobs: seq<LockstepInputs>, picks: seq<MTInputs>,
                   blankReq: MemRequest, blankOperands: Operands, compare: (Operands, Operands) -> bool)
    requires |argv| >= 2 && argv[1] in SimSyntax.help
    ensures Launch(argv, cfg0, jitEnabled, files, boot, st, tickCtr, jobs, picks, blankReq, blankOperands, compare) == Code(0)
  {
    HelpFirst(argv, cfg0, jitEnabled);
  }

  /** A command line made only of options never runs a program: it shows the help, fails, or raises. */
  lemma LaunchWithoutProgram(argv: seq<string>, cfg0: Config, jitEnabled: bool, files: Files, boot: CoreState,
                             st: Stats, tickCtr: int, jobs: seq<LockstepInputs>, picks: seq<MTInputs>,
                             blankReq: MemRequest, blankOperands: Operands, compare: (Operands, Operands) -> bool)
    requires forall j :: 1 <= j < |argv| ==> Dashed(argv[j])
    ensures var e := Launch(argv, cfg0, jitEnabled, files, boot, st, tickCtr, jobs, picks, blankReq, blankOperands, compare);
            e == Code(0) || e == Code(1) || e == Uncaught(BadOption)
  {
    NoProgramFails(argv, 1, ParseState(cfg0, InitialLocals(), "", 0), jitEnabled, SimSyntax);
  }

  /**
   * Which exceptions escape entry_point: an option value int() refuses, a
   * missing core 0, a failed sanity check or too many SIMT pcs in the
   * lockstep loop, a bad thread selection in the multithreaded loop, and a
   * lockstep run without a JIT driver; the multithreaded loop never needs
   * the driver.
   */
  lemma LaunchRaises(argv: seq<string>, cfg0: Config, jitEnabled: bool, files: Files, boot: CoreState,
                     st: Stats, tickCtr: int, jobs: seq<LockstepInputs>, picks: seq<MTInputs>,
                     blankReq: MemRequest, blankOperands: Operands, compare: (Operands, Operands) -> bool)
    requires Consistent(st)
    ensures var e := Launch(argv, cfg0, jitEnabled, files, boot, st, tickCtr, jobs, picks, blankReq, blankOperands, compare);
            e.Uncaught? ==> e.e in {BadOption, IndexOutOfRange, NoActiveCore, TooManyPcs, BadSelection, MissingJitDriver}
    ensures var e := Launch(argv, cfg0, jitEnabled, files, boot, st, tickCtr, jobs, picks, blankReq, blankOperands, compare);
            e == Uncaught(MissingJitDriver) ==> !jitEnabled
    ensures var e := Launch(argv, cfg0, jitEnabled, files, boot, st, tickCtr, jobs, picks, blankReq, blankOperands, compare);
            e.Uncaught? && e.e in {NoActiveCore, TooManyPcs, MissingJitDriver} ==> Parse(argv, cfg0, jitEnabled).Parsed? && !RunConfig(Parse(argv, cfg0, jitEnabled).cfg).switches.mt
  {
    match Parse(argv, cfg0, jitEnabled)
    case ShowHelp =>
    case BadArgs =>
    case Crash =>
    case Parsed(cfg, locals, _) =>
      if files.exeOpens && cfg.ncores >= 1 {
        var run := RunConfig(cfg);
        var m := Machine(Boot(boot, cfg), st, tickCtr);
        assert Good(m);
        if run.switches.mt {
          MTRunEnds(m, MTRegs(0, blankReq, blankOperands), run, picks, compare);
        } else if jitEnabled {
          LockstepRunEnds(m, run, jobs, compare);
        }
      }
  }

  /**
   * A program that reaches its loop runs with at least one core, a known
   * reconvergence scheme, word-aligned line sizes (when the options started
   * aligned) and every zero bandwidth replaced by a positive default.
   */
  lemma LaunchReady(cfg: Config)
    requires cfg.ncores >= 1 && cfg.icacheLineSz % 4 == 0 && cfg.dcacheLineSz % 4 == 0
    ensures var r := RunConfig(cfg);
            && r.icacheLineSz % 4 == 0 && r.dcacheLineSz % 4 == 0
            && (cfg.ports.inst == 0 ==> r.ports.inst == (if cfg.switches.mt then 1 else cfg.ncores))
            && (cfg.barrierDelta == 0 ==> r.barrierDelta == 50)
            && (cfg.schedLimit == 0 ==> r.schedLimit == cfg.ncores)
  {
    var c := cfg.(taskLockstep := cfg.taskLockstep || cfg.lockstep == 2);
    DefaultsPositive(c.(ports := Ports(0, 0, 0, 0), icacheLineSz := 0, dcacheLineSz := 0, barrierDelta := 0, schedLimit := 0));
  }

  // ---------------------------------------------------------------------
  // The simulator object
  // ---------------------------------------------------------------------

  /** The first of the tick's operand values that compares equal to o, if o is valid. */
  method AnyMatch(ops: seq<Operands>, o: Operands, compare: (Operands, Operands) -> bool) returns (found: bool)
    ensures found == (o.valid && MatchesAny(ops, o, compare))
  {
    var j := 0;
    while j < |ops|
      invariant 0 <= j <= |ops|
      invariant !(o.valid && exists k :: 0 <= k < j && compare(o, ops[k]))
    {
      if compare(o, ops[j]) && o.valid {
        return true;
      }
      j := j + 1;
    }
    return false;
  }

  class Sim {
    var states: array<CoreState>
    var stats: Stats
    var tickCtr: int
    var config: Config
    const jitEnabled: bool

    /** There is a core 0, one state per configured core with its id as its index, and the counters agree. */
    ghost predicate Valid()
      reads this, states
    {
      states.Length >= 1 && states.Length == config.ncores && IdsMatch(states[..]) && Consistent(stats)
    }

    /** The machine the loop functions describe. */
    ghost function Current(): Machine
      reads this, states
    {
      Machine(states[..], stats, tickCtr)
    }

    /** Sim.__init__: no cores yet, every counter zero, the initial options. */
    constructor(jitEnabled: bool)
      ensures this.jitEnabled == jitEnabled && states.Length == 0
      ensures stats == Zero() && tickCtr == 0 && config == InitialConfig()
    {
      this.jitEnabled := jitEnabled;
      states := new CoreState[0];
      stats := Zero();
      tickCtr := 0;
      config := InitialConfig();
    }

    // -------------------------------------------------------------------
    // The parts of a lockstep tick
    // -------------------------------------------------------------------

    /** A collaborator's xtick: every core's arbitration flags set. */
    method ApplyFlags(f: int -> Flags)
      modifies states
      ensures states[..] == Arbitrate(old(states[..]), f)
    {
      forall i | 0 <= i < states.Length {
        states[i] := WithFlags(states[i], f(i));
      }
    }

    /** The sanity check after the reconvergence manager (sim.py:736-744). */
    method SanityCheck() returns (ok: bool)
      ensures ok == SanityOk(states[..])
    {
      var active := false;
      var allWaiting := true;
      var i := 0;
      while i < states.Length
        invariant 0 <= i <= states.Length
        invariant active == exists j :: 0 <= j < i && states[j].active
        invariant allWaiting == forall j :: 0 <= j < i ==> states[j].stop || states[j].stall || states[j].clear
      {
        active := active || states[i].active;
        allWaiting := allWaiting && (states[i].stop || states[i].stall || states[i].clear);
        i := i + 1;
      }
      ok := active || allWaiting;
    }

    /**
     * The front-end loop: each active, non-stalled core is decoded and its
     * pre-execute hook run; its pc is counted unique when it is the first
     * of the tick, then in the totals; a decode failure ends the loop.
     */
    method Frontend(t: LockstepInputs) returns (pcs: seq<int>, fault: bool)
      requires states.Length >= 1
      modifies this`stats, states
      ensures Front(states[..], pcs, stats, fault) == FrontEnd(old(states[..]), old(stats), t)
    {
      ghost var cs, st := states[..], stats;
      ghost var ds := Decodes(t, states.Length);
      // the pre-execute hook never changes a core's statistics flag
      var core0StatsEn := states[0].statsEn;
      pcs, fault := [], false;
      var i := 0;
      while i < states.Length
        invariant 0 <= i <= states.Length
        invariant FrontPrefix(cs, ds, core0StatsEn, st, i) == Front(states[..], pcs, stats, false)
      {
        pcs, fault := FrontendCore(i, t.decoded(i), core0StatsEn, pcs);
        if fault {
          FrontFaultSticks(cs, ds, core0StatsEn, st, i + 1, states.Length);
          break;
        }
        i := i + 1;
      }
    }

    /** The body of the front-end loop for core i. */
    method FrontendCore(i: int, d: Decoded, core0StatsEn: bool, pcs: seq<int>) returns (pcs': seq<int>, fault: bool)
      requires 0 <= i < states.Length
      modifies this`stats, states
      ensures Front(states[..], pcs', stats, fault) == FrontCore(Front(old(states[..]), pcs, old(stats), false), i, d, core0StatsEn)
    {
      pcs', fault := pcs, false;
      var s := states[i];
      if s.active && !s.stall {
        if d == DecodeFault {
          return pcs, true;
        }
        s := ApplyDecoded(s, d, core0StatsEn);
        var region := RegionOf(s);
        AddCommutes(stats, region);
        if s.pc !in pcs {
          pcs' := pcs + [s.pc];
          stats := AddUnique(stats, region);
        }
        stats := AddTotal(stats, region);
        states[i] := s;
      }
    }

    /**
     * The back-end loop: each core's task-start flag is cleared; each
     * active, non-stalled core executes; in a parallel region the execution
     * is counted and its operands kept when valid and equal to none kept so
     * far; an execution failure ends the loop; a core still active and not
     * stalled retires the instruction.
     */
    method Backend(t: LockstepInputs, compare: (Operands, Operands) -> bool) returns (ops: seq<Operands>, fault: bool)
      modifies this`stats, states
      ensures Back(states[..], ops, stats, fault)
              == BackPrefix(old(states[..]), Executes(t, states.Length), compare, old(stats), states.Length)
    {
      ghost var cs, st := states[..], stats;
      ghost var es := Executes(t, states.Length);
      ops, fault := [], false;
      var i := 0;
      while i < states.Length
        invariant 0 <= i <= states.Length
        invariant BackPrefix(cs, es, compare, st, i) == Back(states[..], ops, stats, false)
      {
        ops, fault := BackendCore(i, t.executed(i), compare, ops);
        if fault {
          BackFaultSticks(cs, es, compare, st, i + 1, states.Length);
          break;
        }
        i := i + 1;
      }
    }

    /** The body of the back-end loop for core i. */
    method BackendCore(i: int, e: Executed, compare: (Operands, Operands) -> bool, ops: seq<Operands>)
      returns (ops': seq<Operands>, fault: bool)
      requires 0 <= i < states.Length
      modifies this`stats, states
      ensures Back(states[..], ops', stats, fault) == BackCore(Back(old(states[..]), ops, old(stats), false), i, e, compare)
    {
      ops', fault := ops, false;
      var s := states[i].(startTask := false);
      if s.active && !s.stall {
        match e
        case ExecFault =>
          fault := true;
        case Executed(eff) =>
          s := ApplyExec(s, eff);
          if s.spmdMode || s.wsrtMode {
            stats := stats.(totalExecutes := stats.totalExecutes + 1);
            var found := AnyMatch(ops, s.operands, compare);
            if !found && s.operands.valid {
              ops' := ops + [s.operands];
            }
          }
          if s.active && !s.stall {
            s := Retire(s);
          }
      }
      states[i] := s;
    }

    /** Each stalled core charges its stall to one cause (sim.py:939-945). */
    method ChargeStalls()
      modifies states
      ensures states[..] == StallAll(old(states[..]))
    {
      var i := 0;
      while i < states.Length
        invariant 0 <= i <= states.Length
        invariant forall j :: 0 <= j < i ==> states[j] == StallOne(old(states[j]))
        invariant forall j :: i <= j < states.Length ==> states[j] == old(states[j])
      {
        var tc := ChargeStall(states[i]);
        states[i] := tc;
        i := i + 1;
      }
    }

    /** One core's stall charged to its cause: fetch before data memory before the MDU before the FPU. */
    static method ChargeStall(c: CoreState) returns (r: CoreState)
      ensures r == StallOne(c)
    {
      r := c;
      if r.istall {
        r := r.(imemStalls := r.imemStalls + 1);
      } else if r.stall {
        if r.dmem {
          r := r.(dmemStalls := r.dmemStalls + 1);
        } else if r.mdu {
          r := r.(mduStalls := r.mduStalls + 1);
        } else if r.fpu {
          r := r.(fpuStalls := r.fpuStalls + 1);
        }
      }
    }

    /** The step counters, gated on core 0's statistics flag. */
    method CountStep()
      requires states.Length >= 1
      modifies this`stats
      ensures stats == CountSteps(old(stats), states[0])
    {
      if states[0].statsEn {
        stats := stats.(totalSteps := stats.totalSteps + 1);
      }
      var parallelMode := states[0].wsrtMode || states[0].spmdMode;
      if states[0].statsEn && !parallelMode {
        stats := stats.(serialSteps := stats.serialSteps + 1);
      }
    }

    // -------------------------------------------------------------------
    // The barrier synchroniser
    // -------------------------------------------------------------------

    /** Every parked core waits one tick more. */
    method ParkStopped()
      modifies states
      ensures states[..] == Park(old(states[..]))
    {
      var i := 0;
      while i < states.Length
        invariant 0 <= i <= states.Length
        invariant forall j :: 0 <= j < i ==> states[j] == ParkOne(old(states[j]))
        invariant forall j :: i <= j < states.Length ==> states[j] == old(states[j])
      {
        if states[i].stop {
          states[i] := states[i].(barrierCtr := states[i].barrierCtr + 1);
        }
        i := i + 1;
      }
    }

    /** all_waiting or reset_core. */
    method ReleaseDueNow() returns (due: bool)
      ensures due == ReleaseDue(states[..])
    {
      var allWaiting := true;
      var resetCore := false;
      var i := 0;
      while i < states.Length
        invariant 0 <= i <= states.Length
        invariant resetCore == exists j :: 0 <= j < i && states[j].barrierCtr == states[j].barrierLimit
        invariant allWaiting == forall j :: 0 <= j < i ==> states[j].barrierCtr > 0
      {
        if states[i].barrierCtr == states[i].barrierLimit {
          resetCore := true;
        }
        if !(states[i].barrierCtr > 0) {
          allWaiting := false;
        }
        i := i + 1;
      }
      due := allWaiting || resetCore;
    }

    /** The ids of the waiting cores, in core order. */
    method WaitingCores() returns (w: seq<int>)
      ensures w == Waiting(states[..])
    {
      w := [];
      var i := 0;
      while i < states.Length
        invariant 0 <= i <= states.Length
        invariant w == Waiting(states[..i])
      {
        assert states[..i + 1][..i] == states[..i];
        if states[i].barrierCtr > 0 {
          w := w + [states[i].coreId];
        }
        i := i + 1;
      }
      assert states[..states.Length] == states[..];
    }

    /** One waiting core released among n, its verdict counted and, with adaptive hints, its limit moved. */
    method ReleaseCore(core: int, n: nat)
      requires 0 <= core < states.Length
      modifies states, this`stats
      ensures states[..] == old(states[..])[core := ReleaseOne(old(states[core]), n, BarrierOf(config))]
      ensures stats == old(stats).(barrierHits := old(stats).barrierHits + (if Classify(old(states[core]), n) == Hit then 1 else 0),
                                   barrierMiss := old(stats).barrierMiss + (if Classify(old(states[core]), n) == Miss then 1 else 0))
    {
      var c := states[core];
      var limit := c.barrierLimit;
      if config.switches.adaptiveHint {
        if c.barrierCtr == c.barrierLimit && n > 1 {
          limit := if c.barrierLimit > config.barrierDelta then c.barrierLimit - config.barrierDelta else config.barrierLimit;
          stats := stats.(barrierHits := stats.barrierHits + 1);
        } else if c.barrierCtr == c.barrierLimit && n == 1 {
          limit := if c.barrierLimit < config.barrierLimit then c.barrierLimit + config.barrierDelta else config.barrierDelta;
          stats := stats.(barrierMiss := stats.barrierMiss + 1);
        } else if n > 1 {
          stats := stats.(barrierHits := stats.barrierHits + 1);
        }
      } else {
        if c.barrierCtr == c.barrierLimit && n > 1 {
          stats := stats.(barrierHits := stats.barrierHits + 1);
        } else if c.barrierCtr == c.barrierLimit && n == 1 {
          stats := stats.(barrierMiss := stats.barrierMiss + 1);
        } else if n > 1 {
          stats := stats.(barrierHits := stats.barrierHits + 1);
        }
      }
      states[core] := c.(barrierLimit := limit, barrierCtr := 0, stop := false, active := true, pc := c.pc + 4);
    }

    /** Every waiting core released, in core order. */
    method ReleaseWaiting(w: seq<int>)
      requires forall j :: 0 <= j < |w| ==> 0 <= w[j] < states.Length
      requires forall j, l :: 0 <= j < l < |w| ==> w[j] < w[l]
      modifies states, this`stats
      ensures states[..] == Released(old(states[..]), w, |w|, BarrierOf(config))
      ensures stats == old(stats).(barrierHits := old(stats).barrierHits + CountVerdict(old(states[..]), w, |w|, Hit),
                                   barrierMiss := old(stats).barrierMiss + CountVerdict(old(states[..]), w, |w|, Miss))
    {
      ghost var p, st := states[..], stats;
      assert states[..] == Released(p, w[..0], |w|, BarrierOf(config));
      var k := 0;
      ghost var hits, miss := 0, 0;
      while k < |w|
        invariant 0 <= k <= |w|
        invariant states[..] == Released(p, w[..k], |w|, BarrierOf(config))
        invariant hits == CountVerdict(p, w[..k], |w|, Hit) && miss == CountVerdict(p, w[..k], |w|, Miss)
        invariant stats == st.(barrierHits := st.barrierHits + hits, barrierMiss := st.barrierMiss + miss)
      {
        ReleasedStep(p, w, k, |w|, BarrierOf(config));
        CountVerdictStep(p, w, k, |w|, Hit);
        CountVerdictStep(p, w, k, |w|, Miss);
        ghost var verdict := Classify(p[w[k]], |w|);
        ReleaseCore(w[k], |w|);
        hits, miss := hits + (if verdict == Hit then 1 else 0), miss + (if verdict == Miss then 1 else 0);
        k := k + 1;
      }
      assert w[..|w|] == w;
    }

    /** The barrier synchroniser that ends every tick of both loops. */
    method Synchronise()
      requires IdsMatch(states[..])
      modifies states, this`stats
      ensures var r := Synchronised(old(states[..]), old(stats), config);
              states[..] == r.0 && stats == r.1
    {
      ghost var b := Barrier.Step(states[..], BarrierOf(config));
      ParkKeepsIds(states[..]);
      ParkStopped();
      ghost var p := states[..];
      var due := ReleaseDueNow();
      if due {
        var w := WaitingCores();
        WaitingInRange(p);
        ReleaseWaiting(w);
        assert states[..] == b.cores;
      } else {
        assert states[..] == b.cores && b.hits == 0 && b.miss == 0;
      }
    }

    // -------------------------------------------------------------------
    // run (sim.py:653-1022)
    // -------------------------------------------------------------------

    /** One tick of the lockstep loop after the tick counter. */
    method TickLockstep(t: LockstepInputs, compare: (Operands, Operands) -> bool) returns (err: Option<Error>)
      requires Valid()
      modifies this`stats, states
      ensures Valid()
      ensures var r := LockstepTick(old(states[..]), old(stats), config, t, compare);
              states[..] == r.cores && stats == r.stats && err == r.err
    {
      ghost var cs, st := states[..], stats;
      ghost var r := LockstepTick(cs, st, config, t, compare);
      LockstepTickConsistent(cs, st, config, t, compare);
      ArbitrateKeepsIds(cs, t.reconvergence);
      ApplyFlags(t.reconvergence);
      var ok := SanityCheck();
      if !ok {
        assert r == TickResult(states[..], st, Some(NoActiveCore));
        return Some(NoActiveCore);
      }
      ghost var f := FrontEnd(states[..], st, t);
      var pcs, fault := Frontend(t);
      assert states[..] == f.cores && pcs == f.pcs && stats == f.stats;
      if config.switches.simt && |pcs| > config.ports.inst {
        assert r == TickResult(f.cores, f.stats, Some(TooManyPcs));
        return Some(TooManyPcs);
      }
      assert r == TickBack(f.cores, f.stats, config, t, compare);
      FinishTick(t, compare);
      err := None;
    }

    /** The second half of a lockstep tick, from the back-end resources to the barrier. */
    method FinishTick(t: LockstepInputs, compare: (Operands, Operands) -> bool)
      requires states.Length >= 1 && IdsMatch(states[..])
      modifies this`stats, states
      ensures var r := TickBack(old(states[..]), old(stats), config, t, compare);
              states[..] == r.cores && stats == r.stats
    {
      ghost var b := BackEnd(states[..], stats, t, compare);
      ApplyFlags(t.resources);
      var ops, fault := Backend(t, compare);
      assert states[..] == b.cores && ops == b.ops && stats == b.stats;
      stats := stats.(uniqueExecutes := stats.uniqueExecutes + |ops|);
      ChargeStalls();
      StallKeepsIds(b.cores);
      CountStep();
      Synchronise();
    }

    /**
     * run: while core 0 runs, the soft stops, the tick counter and one
     * tick per entry of the inputs; the JIT driver is looked up first.
     */
    method Run(jobs: seq<LockstepInputs>, compare: (Operands, Operands) -> bool) returns (reason: StopReason)
      requires Valid()
      modifies this`stats, this`tickCtr, states
      ensures Valid()
      ensures RunResult(Current(), reason) == RunLockstep(old(Current()), config, jitEnabled, jobs, compare)
    {
      if !jitEnabled {
        return Raised(MissingJitDriver);
      }
      reason := RunLoop(jobs, compare);
    }

    /** The lockstep loop proper, once the JIT driver is found. */
    method RunLoop(jobs: seq<LockstepInputs>, compare: (Operands, Operands) -> bool) returns (reason: StopReason)
      requires Valid()
      modifies this`stats, this`tickCtr, states
      ensures Valid()
      ensures RunResult(Current(), reason) == LockstepRun(old(Current()), config, jobs, compare)
    {
      ghost var goal := LockstepRun(Current(), config, jobs, compare);
      var k := 0;
      while states[0].running
        invariant Valid()
        invariant 0 <= k <= |jobs|
        invariant LockstepRun(Current(), config, jobs[k..], compare) == goal
        decreases |jobs| - k
      {
        ghost var m := Current();
        if config.maxInsts != 0 && states[0].numInsts >= config.maxInsts {
          return MaxInstsReached;
        }
        if config.maxTicks != 0 && tickCtr >= config.maxTicks {
          return MaxTicksReached;
        }
        assert SoftStop(m, config).None?;
        if states[0].statsEn {
          tickCtr := tickCtr + 1;
        }
        ghost var m1 := CountTick(m);
        assert Current() == m1;
        if k == |jobs| {
          return OutOfSchedule;
        }
        ghost var t := LockstepTick(m1.cores, m1.stats, config, jobs[k], compare);
        var err := TickLockstep(jobs[k], compare);
        assert Current() == Machine(t.cores, t.stats, m1.tickCtr) && err == t.err;
        if err.Some? {
          return Raised(err.value);
        }
        LockstepRunNext(m, config, jobs[k..], compare);
        assert jobs[k..][1..] == jobs[k + 1..];
        k := k + 1;
      }
      return Halted;
    }

    // -------------------------------------------------------------------
    // run_mt (sim.py:244-500)
    // -------------------------------------------------------------------

    /** One tick of the time-multiplexed loop after the tick counter: the thread selector's flags and pick, then the checks and the selected core's step. */
    method TickMT(t: MTInputs, regs: MTRegs, compare: (Operands, Operands) -> bool) returns (regs2: MTRegs, stop: Option<StopReason>)
      requires Valid()
      modifies this`stats, states
      ensures Valid()
      ensures var r := MTTick(old(states[..]), old(stats), regs, config, t, compare);
              states[..] == r.cores && stats == r.stats && regs2 == r.regs && stop == r.stop
    {
      MTTickConsistent(states[..], stats, regs, config, t, compare);
      ArbitrateKeepsIds(states[..], t.flags);
      ApplyFlags(t.flags);
      var n := states.Length;
      var activeCore := t.activeCore;
      if !(-n <= activeCore < n) {
        return regs, Some(Raised(IndexOutOfRange));
      }
      var i := if activeCore < 0 then n + activeCore else activeCore;
      if (!states[i].active && !states[i].stop) || activeCore == -1 {
        return regs, Some(Raised(BadSelection));
      }
      if t.decoded == DecodeFault {
        return regs, Some(DecodeAborted);
      }
      regs2, stop := StepMT(i, t, regs, compare);
    }

    /** The selected core's fetch, execution and retirement, then the step counters and the barrier. */
    method StepMT(i: int, t: MTInputs, regs: MTRegs, compare: (Operands, Operands) -> bool) returns (regs2: MTRegs, stop: Option<StopReason>)
      requires 0 <= i < states.Length && IdsMatch(states[..]) && t.decoded != DecodeFault
      modifies this`stats, states
      ensures var r := MTStep(old(states[..]), old(stats), regs, config, t, compare, i);
              states[..] == r.cores && stats == r.stats && regs2 == r.regs && stop == r.stop
    {
      ghost var cs := states[..];
      var s := states[i];
      var preExecutePc := s.pc;
      var front := MTFront(s, t.decoded, states[0].statsEn, regs, config, stats);
      s, stats := front.core, front.stats;
      match t.executed
      case ExecFault =>
        states[i] := s;
        return regs, Some(ExecAborted);
      case Executed(e) =>
        s := ApplyExec(s, e);
        stats := OperandsMT(s, preExecutePc, regs.lastActivePc, regs.lastOperands, compare, stats);
        regs2 := MTRegs(preExecutePc, NextLastMemReq(s, regs.lastMemReq), s.operands);
        states[i] := Retire(s);
      assert IdsMatch(states[..]) by {
        assert states[..] == cs[i := Retire(s)];
      }
      CountStep();
      Synchronise();
      stop := None;
    }

    /**
     * run_mt: while core 0 runs, the soft stops, the tick counter and one
     * tick per entry of the inputs, carrying the last pc, memory request and
     * operands from tick to tick.
     */
    method RunMT(picks: seq<MTInputs>, blankReq: MemRequest, blankOperands: Operands,
                 compare: (Operands, Operands) -> bool) returns (reason: StopReason)
      requires Valid()
      modifies this`stats, this`tickCtr, states
      ensures Valid()
      ensures RunResult(Current(), reason) == Loops.RunMT(old(Current()), config, blankReq, blankOperands, picks, compare)
    {
      var regs := MTRegs(0, blankReq, blankOperands);
      var k := 0;
      while states[0].running
        invariant Valid()
        invariant 0 <= k <= |picks|
        invariant MTRun(Current(), regs, config, picks[k..], compare)
                  == MTRun(old(Current()), MTRegs(0, blankReq, blankOperands), config, picks, compare)
        decreases |picks| - k
      {
        ghost var m := Current();
        if config.maxInsts != 0 && states[0].numInsts >= config.maxInsts {
          return MaxInstsReached;
        }
        if config.maxTicks != 0 && tickCtr >= config.maxTicks {
          return MaxTicksReached;
        }
        assert SoftStop(m, config).None?;
        if states[0].statsEn {
          tickCtr := tickCtr + 1;
        }
        ghost var m1 := CountTick(m);
        assert Current() == m1;
        if k == |picks| {
          return OutOfSchedule;
        }
        ghost var t := MTTick(m1.cores, m1.stats, regs, config, picks[k], compare);
        ghost var regs0 := regs;
        var stop;
        regs, stop := TickMT(picks[k], regs, compare);
        assert Current() == Machine(t.cores, t.stats, m1.tickCtr) && regs == t.regs && stop == t.stop;
        if stop.Some? {
          return stop.value;
        }
        MTRunNext(m, regs0, config, picks[k..], compare);
        assert picks[k..][1..] == picks[k + 1..];
        k := k + 1;
      }
      return Halted;
    }

    // -------------------------------------------------------------------
    // entry_point (sim.py:1240-1640)
    // -------------------------------------------------------------------

    /** The per-core setup of entry_point: one fresh state per requested core, a negative count giving none. */
    method BootCores(boot: CoreState)
      modifies this`states, this`config
      ensures fresh(states) && states.Length == if old(config).ncores > 0 then old(config).ncores else 0
      ensures forall j :: 0 <= j < states.Length ==> states[j] == CoreSetup(boot.(coreId := j), old(config))
      ensures config == old(config).(taskLockstep := old(config).taskLockstep || (states.Length > 0 && old(config).lockstep == 2))
    {
      // Only taskLockstep changes inside the loop, and the setup does not read it.
      var parsed := config;
      var n := if parsed.ncores > 0 then parsed.ncores else 0;
      var cores := new CoreState[n](i => boot.(coreId := i));
      var i := 0;
      while i < n
        invariant 0 <= i <= n == cores.Length
        invariant forall j :: 0 <= j < i ==> cores[j] == CoreSetup(boot.(coreId := j), parsed)
        invariant forall j :: i <= j < n ==> cores[j] == boot.(coreId := j)
        modifies cores
      {
        cores[i] := CoreSetup(cores[i], parsed);
        i := i + 1;
      }
      states := cores;
      if n > 0 && parsed.lockstep == 2 {
        config := parsed.(taskLockstep := true);
      }
    }

    /** The argument loop: one token at a time until a token ends the parse or names the program. */
    method ParseArgs(argv: seq<string>) returns (o: Outcome)
      modifies this`config
      ensures o == Parse(argv, old(config), jitEnabled)
      ensures o.Parsed? ==> config == o.cfg
    {
      var s := ParseState(config, InitialLocals(), "", 0);
      var i := 1;
      while i < |argv|
        invariant 1 <= i
        invariant s.filenameIdx == 0 && config == s.cfg
        invariant ParseFrom(argv, i, s, jitEnabled, SimSyntax) == Parse(argv, old(config), jitEnabled)
        decreases |argv| - i
      {
        match TokenStep(s, argv[i], i, jitEnabled, SimSyntax)
        case Done(out) =>
          return out;
        case Next(next) =>
          s := next;
          config := s.cfg;
        i := i + 1;
        if s.filenameIdx != 0 {
          break;
        }
      }
      o := Finish(s);
    }

    /**
     * entry_point: parse the arguments, load the program through init_state
     * (whose cores start as copies of boot), set up every core, open the
     * runtime metadata and the dump file, check the reconvergence scheme,
     * apply the defaults and run the configured loop.
     */
    method EntryPoint(argv: seq<string>, files: Files, boot: CoreState, jobs: seq<LockstepInputs>, picks: seq<MTInputs>,
                      blankReq: MemRequest, blankOperands: Operands, compare: (Operands, Operands) -> bool)
      returns (exit: Exit)
      requires Consistent(stats)
      modifies this
      ensures exit == Launch(argv, old(config), jitEnabled, files, boot, old(stats), old(tickCtr),
                             jobs, picks, blankReq, blankOperands, compare)
    {
      var o := ParseArgs(argv);
      if o.ShowHelp? {
        return Code(0);
      } else if o.BadArgs? {
        return Code(1);
      } else if o.Crash? {
        return Uncaught(BadOption);
      }
      exit := Launched(o.locals, files, boot, jobs, picks, blankReq, blankOperands, compare);
    }

    /** entry_point after a successful parse, from the options it left. */
    method Launched(locals: Locals, files: Files, boot: CoreState, jobs: seq<LockstepInputs>, picks: seq<MTInputs>,
                    blankReq: MemRequest, blankOperands: Operands, compare: (Operands, Operands) -> bool)
      returns (exit: Exit)
      requires Consistent(stats)
      modifies this
      ensures exit == Start(old(config), locals, jitEnabled, files, boot, old(stats), old(tickCtr),
                            jobs, picks, blankReq, blankOperands, compare)
    {
      if !files.exeOpens {
        return Code(1);
      }
      ghost var parsed := config;
      BootCores(boot);
      if states.Length < 1 {
        return Uncaught(IndexOutOfRange);
      }
      if Given(locals.runtimeMd) && !files.runtimeMdOpens {
        return Code(1);
      }
      if config.outfile != "" && !files.outfileOpens {
        return Code(1);
      }
      if !(0 <= config.reconvergence <= 2) {
        return Code(1);
      }
      assert states[..] == Boot(boot, parsed);
      config := Defaults(config);
      assert config == RunConfig(parsed);
      var reason;
      if config.switches.mt {
        reason := RunMT(picks, blankReq, blankOperands, compare);
      } else {
        reason := Run(jobs, compare);
      }
      exit := ExitOf(reason);
    }
  }
}
